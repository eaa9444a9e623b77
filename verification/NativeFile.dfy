/**
 The file stream: synchronous calls on its descriptor, and asynchronous calls that try the thread's
 ring and fall back to a second descriptor opened on the path. The path is taken to name the stream's
 file throughout, and nobody else to change that file. Between any two system calls of the stream the
 kernel may go on with what is in flight on the ring.
 */
module NativeFile {
  import opened IoTypes
  import opened RingProtocol
  import opened FileModel
  import opened Calls
  import opened LinuxEngine
  import opened RanDuring
  import opened BatchTheorems
  import opened BatchReads
  import opened CallEffects
  import opened StreamRuns
  import opened Accounts
  import FileModes

  // --- The two routes of aread ---

  /** What aread asks the ring for when no size is given. */
  const DEFAULT_READ: nat := 65536

  /** How much of the file aread asks the ring for: a u32. */
  function RingReadSize(size: int): nat {
    (if size < 0 then DEFAULT_READ else size) % U32
  }

  /** `data` may be what aread returns of a file holding `bytes`: a prefix within the route's limit, and
      empty, if anything is asked for, only of an empty file. */
  predicate AnswersRead(bytes: seq<byte>, size: int, viaRing: bool, data: seq<byte>) {
    && data == Slice(bytes, 0, |data|)
    && (if viaRing then |data| <= RingReadSize(size) else if size < 0 then data == bytes else |data| <= size)
    && (data == [] ==> bytes == [] || (if viaRing then RingReadSize(size) == 0 else size == 0))
  }

  /** As much as the route asks for and the file has. */
  predicate FullRead(bytes: seq<byte>, size: int, viaRing: bool, data: seq<byte>) {
    |data| == Min(if viaRing then RingReadSize(size) else if size < 0 then |bytes| else size, |bytes|)
  }

  /** When both routes of aread return as much as they ask for, they agree exactly when the size is
      given and fits a u32, or the whole file is no longer than what the ring is asked for. */
  lemma ReadRoutesAgreeIff(bytes: seq<byte>, size: int, byRing: seq<byte>, byPath: seq<byte>)
    requires AnswersRead(bytes, size, true, byRing) && FullRead(bytes, size, true, byRing)
    requires AnswersRead(bytes, size, false, byPath) && FullRead(bytes, size, false, byPath)
    ensures byRing == byPath <==> 0 <= size < U32 || |bytes| <= RingReadSize(size)
  {
  }

  /** A file of 65537 bytes, read without a size: the ring stops one byte short. */
  lemma ReadRoutesDisagree()
    ensures var bytes, byRing := Zeros(65537), Zeros(65536);
            && AnswersRead(bytes, -1, true, byRing) && FullRead(bytes, -1, true, byRing)
            && AnswersRead(bytes, -1, false, bytes) && FullRead(bytes, -1, false, bytes)
            && byRing != bytes
  {
    assert Slice(Zeros(65537), 0, 65536) == Zeros(65536);
    assert |Zeros(65536)| != |Zeros(65537)|;
  }

  // --- What a call leaves on record ---

  /** A stream and its ring at one moment. */
  datatype Snapshot = Snapshot(file: File, state: State, effects: seq<Effect>, accepted: seq<byte>, clean: bool)

  /** From `a` to `b` the effects `es` took place and nothing else; the calls accounted for the bytes they
      wrote themselves and for `counted`, which the ring was to have put into the file. */
  ghost predicate Booked(fd: int, a: Snapshot, es: seq<Effect>, counted: seq<byte>, b: Snapshot) {
    && b.effects == a.effects + es && Took(a.file, es, b.file)
    && b.accepted == a.accepted + (counted + Direct(es))
    && b.clean == (a.clean && RingAccepted(fd, es) == counted)
  }

  /** If nothing was waiting that could touch the file, nothing is, and nothing did. */
  ghost predicate StaysIdle(fd: int, a: Snapshot, es: seq<Effect>, b: Snapshot) {
    Idle(a.state, fd) ==> Idle(b.state, fd) && Undisturbed(fd, es)
  }

  /** Only the stream's own system calls and stale operations took place. */
  ghost predicate Went(fd: int, a: Snapshot, es: seq<Effect>, b: Snapshot) {
    Booked(fd, a, es, [], b) && StaysIdle(fd, a, es, b)
  }

  lemma WentNowhere(fd: int, a: Snapshot)
    ensures Went(fd, a, [], a)
  {
    TookNothing(a.file);
  }

  lemma BookedTwice(fd: int, a: Snapshot, es: seq<Effect>, b: Snapshot, fs: seq<Effect>, c: Snapshot)
    requires Booked(fd, a, es, [], b) && Booked(fd, b, fs, [], c)
    ensures Booked(fd, a, es + fs, [], c)
  {
    hide Took, Direct, RingAccepted;
    TookTwice(a.file, es, b.file, fs, c.file);
    DirectConcat(es, fs);
    RingConcat(fd, es, fs);
    Regroup(a.effects, es, fs);
    Regroup(a.accepted, Direct(es), Direct(fs));
    NothingFirst(Direct(es));
    NothingFirst(Direct(fs));
    NothingFirst(Direct(es + fs));
  }

  lemma Regroup<T>(a: seq<T>, b: seq<T>, c: seq<T>)
    ensures a + b + c == a + (b + c)
  {
  }

  lemma NothingFirst<T>(a: seq<T>)
    ensures [] + a == a
  {
  }

  lemma WentTwice(fd: int, a: Snapshot, es: seq<Effect>, b: Snapshot, fs: seq<Effect>, c: Snapshot)
    requires Went(fd, a, es, b) && Went(fd, b, fs, c)
    ensures Went(fd, a, es + fs, c)
  {
    BookedTwice(fd, a, es, b, fs, c);
    hide Booked, Idle, Traceless;
  }

  lemma WentFrom(fd: int, a: Snapshot, es: seq<Effect>, b: Snapshot)
    requires Went(fd, a, es, b)
    ensures CanHappenAll(a.file, es) && b.file == PerformAll(a.file, es)
    ensures Idle(a.state, fd) ==> Idle(b.state, fd) && Undisturbed(fd, es)
  {
  }

  function SeekResult(f: File, whence: int, offset: int): Result<nat> {
    match SeekTarget(f, whence, offset)
    case Some(target) => Ok(target)
    case None => Err(Failed)
  }

  lemma NothingPushedYet(order: seq<Entry>, ops: seq<Op>)
    ensures Pushed(order, order, ops)
  {
  }

  /** The bytes from the position to the end. */
  function Left(f: File): nat {
    if f.pos < |f.bytes| then |f.bytes| - f.pos else 0
  }

  lemma ReadsPutNothing(es: seq<Effect>)
    requires Reads(es)
    ensures Direct(es) == []
  {
    if es != [] {
      assert es[|es| - 1] in es;
      assert forall e | e in es[..|es| - 1] :: e in es;
      ReadsPutNothing(es[..|es| - 1]);
    }
  }

  lemma KindsConcat(a: seq<Effect>, b: seq<Effect>)
    ensures Reads(a) && Reads(b) ==> Reads(a + b)
    ensures Writes(a) && Writes(b) ==> Writes(a + b)
    ensures PathWrites(a) && PathWrites(b) ==> PathWrites(a + b)
    ensures RingOnly(a) && RingOnly(b) ==> RingOnly(a + b)
  {
    assert forall e | e in a + b :: e in a || e in b;
  }

  /** On an idle ring only the stream itself writes. */
  lemma StaysClean(fd: int, a: Snapshot, es: seq<Effect>, b: Snapshot)
    requires Went(fd, a, es, b) && a.file.fd == fd
    ensures Idle(a.state, fd) && a.clean ==> b.clean
  {
    hide Idle, Undisturbed;
    if Idle(a.state, fd) {
      UndisturbedAcceptsNothing(a.file, es);
    }
  }

  /** More reads after reads. */
  lemma ReadOn(fd: int, a: Snapshot, es: seq<Effect>, b: Snapshot, more: seq<Effect>, c: Snapshot)
    requires Went(fd, a, es, b) && Went(fd, b, more, c) && Reads(es) && Reads(more)
    ensures Went(fd, a, es + more, c) && Reads(es + more)
    ensures BytesRead(a.file, es + more) == BytesRead(a.file, es) + BytesRead(b.file, more)
  {
    WentFrom(fd, a, es, b);
    WentTwice(fd, a, es, b, more, c);
    KindsConcat(es, more);
    BytesReadConcat(a.file, es, more);
  }

  /** More writes after writes. */
  lemma WriteOn(fd: int, a: Snapshot, es: seq<Effect>, b: Snapshot, more: seq<Effect>, c: Snapshot)
    requires Went(fd, a, es, b) && Went(fd, b, more, c)
    ensures Went(fd, a, es + more, c) && Direct(es + more) == Direct(es) + Direct(more)
    ensures Writes(es) && Writes(more) ==> Writes(es + more)
    ensures PathWrites(es) && PathWrites(more) ==> PathWrites(es + more)
    ensures RingOnly(es) && RingOnly(more) ==> RingOnly(es + more)
  {
    WentTwice(fd, a, es, b, more, c);
    KindsConcat(es, more);
    DirectConcat(es, more);
  }

  lemma ReadsFrom(fd: int, a: Snapshot, es: seq<Effect>, b: Snapshot)
    requires Went(fd, a, es, b) && Reads(es) && a.file.fd == fd
    ensures b.accepted == a.accepted && (Idle(a.state, fd) && a.clean ==> b.clean)
    ensures Idle(a.state, fd) ==>
              var data := BytesRead(a.file, es);
              && Idle(b.state, fd)
              && b.file == a.file.(pos := a.file.pos + |data|) && data == Slice(a.file.bytes, a.file.pos, |data|)
  {
    WentFrom(fd, a, es, b);
    ReadsPutNothing(es);
    WentAccepts(fd, a, es, b);
    StaysClean(fd, a, es, b);
    hide Went, Idle;
    if Idle(a.state, fd) {
      ReadsAdvance(a.file, es);
    }
  }

  lemma WritesFrom(fd: int, a: Snapshot, es: seq<Effect>, b: Snapshot)
    requires Went(fd, a, es, b) && Writes(es) && a.file.fd == fd
    ensures Idle(a.state, fd) ==> Idle(b.state, fd) && b.file == WriteSome(a.file, Direct(es)) && (a.clean ==> b.clean)
  {
    WentFrom(fd, a, es, b);
    StaysClean(fd, a, es, b);
    hide Went, Idle;
    if Idle(a.state, fd) {
      WritesAreOne(a.file, es);
    }
  }

  lemma WentAccepts(fd: int, a: Snapshot, es: seq<Effect>, b: Snapshot)
    requires Went(fd, a, es, b)
    ensures b.accepted == a.accepted + Direct(es)
  {
  }

  lemma WentIsBooked(fd: int, a: Snapshot, es: seq<Effect>, b: Snapshot)
    requires Went(fd, a, es, b)
    ensures Booked(fd, a, es, [], b)
  {
  }

  lemma BookedAccounts(fd: int, a: Snapshot, es: seq<Effect>, counted: seq<byte>, b: Snapshot)
    requires Booked(fd, a, es, counted, b)
    ensures b.accepted == a.accepted + (counted + Direct(es))
    ensures b.clean == (a.clean && RingAccepted(fd, es) == counted)
  {
  }

  /** What a call's effects do to the bytes: on an append stream they add all that was accepted, and
      appends by the path add theirs on any stream while the ring accepts nothing. */
  lemma BookedAppends(fd: int, a: Snapshot, es: seq<Effect>, counted: seq<byte>, b: Snapshot)
    requires Booked(fd, a, es, counted, b) && a.file.fd == fd
    ensures a.file.append ==> b.file.bytes == a.file.bytes + AcceptedInAll(fd, es)
    ensures PathWrites(es) && RingAccepted(fd, es) == [] ==> b.file.bytes == a.file.bytes + Direct(es)
  {
    hide PathWrites;
    if a.file.append {
      AppendRun(a.file, es);
    }
    if PathWrites(es) && RingAccepted(fd, es) == [] {
      PathWritesAppend(a.file, es);
    }
  }

  lemma {:induction false} RingOnlyIsNothingDirect(es: seq<Effect>)
    requires RingOnly(es)
    ensures Direct(es) == [] && PathWrites(es) && Reads(es)
  {
    if es != [] {
      assert es[|es| - 1] in es;
      assert forall e | e in es[..|es| - 1] :: e in es;
      RingOnlyIsNothingDirect(es[..|es| - 1]);
    }
  }

  lemma OneRunIsRingOnly(es: seq<Effect>)
    requires |es| == 1 && es[0].RingRan?
    ensures RingOnly(es) && PathWrites(es) && Direct(es) == []
  {
    assert forall e | e in es :: e == es[0];
    RingOnlyIsNothingDirect(es);
  }

  /** While the ring accepts nothing and the stream makes no call, the bytes stay. */
  lemma SameBytes(fd: int, a: Snapshot, es: seq<Effect>, b: Snapshot)
    requires Went(fd, a, es, b) && RingOnly(es) && a.file.fd == fd
    ensures RingAccepted(fd, es) == [] ==> b.file.bytes == a.file.bytes
  {
    RingOnlyIsNothingDirect(es);
    WentIsBooked(fd, a, es, b);
    BookedAppends(fd, a, es, [], b);
    assert a.file.bytes + [] == a.file.bytes;
  }

  /** More ring activity after ring activity. */
  lemma RingOn(fd: int, a: Snapshot, es: seq<Effect>, b: Snapshot, more: seq<Effect>, c: Snapshot)
    requires Went(fd, a, es, b) && Went(fd, b, more, c) && RingOnly(es) && RingOnly(more) && a.file.fd == fd
    ensures Went(fd, a, es + more, c) && RingOnly(es + more)
    ensures RingAccepted(fd, es + more) == [] ==> RingAccepted(fd, es) == [] && c.file.bytes == a.file.bytes
  {
    WriteOn(fd, a, es, b, more, c);
    RingConcat(fd, es, more);
    SameBytes(fd, a, es + more, c);
  }

  lemma RingOnlyFrom(fd: int, a: Snapshot, es: seq<Effect>, b: Snapshot)
    requires Went(fd, a, es, b) && RingOnly(es) && a.file.fd == fd
    ensures b.accepted == a.accepted
    ensures Idle(a.state, fd) ==>
              && Idle(b.state, fd) && Undisturbed(fd, es) && b.file == a.file && RingAccepted(fd, es) == []
              && (a.clean ==> b.clean)
  {
    WentFrom(fd, a, es, b);
    RingOnlyIsNothingDirect(es);
    WentAccepts(fd, a, es, b);
    StaysClean(fd, a, es, b);
    hide Went, Idle;
    if Idle(a.state, fd) {
      RingOnlyIsStill(a.file, es);
      UndisturbedAcceptsNothing(a.file, es);
    }
  }

  /** After `i` reads in turn by the path: where the next one reads, and, as long as the file has stayed as
      it was, what they returned. */
  ghost predicate InTurnUpTo(fd: int, a: Snapshot, es: seq<Effect>, b: Snapshot, specs: seq<(nat, nat)>, i: nat,
                             res: seq<seq<byte>>, at: nat)
  {
    && Went(fd, a, es, b) && RingOnly(es)
    && i <= |specs| && |res| == i && at == PositionAfter(ByPath, 0, specs[..i], res) && Seekable(specs[..i])
    && (RingAccepted(fd, es) == [] ==> ReadInTurn(ByPath, a.file.bytes, 0, specs[..i], res))
  }

  lemma StartInTurn(fd: int, a: Snapshot, specs: seq<(nat, nat)>)
    requires Went(fd, a, [], a)
    ensures InTurnUpTo(fd, a, [], a, specs, 0, [], 0)
  {
  }

  /** `piece` may be what a read for `spec` returns on a descriptor that stands at `at`, and leaves at `next`. */
  ghost predicate PieceRead(bytes: seq<byte>, spec: (nat, nat), at: nat, piece: seq<byte>, next: nat) {
    var from := if spec.0 == CURRENT then at else spec.0;
    && (spec.0 == CURRENT || spec.0 <= I64_MAX) && next == from + |piece|
    && |piece| <= spec.1 && piece == Slice(bytes, from, |piece|) && (piece == [] && spec.1 > 0 ==> from >= |bytes|)
  }

  /** One more read, which returned `piece`. */
  lemma NextInTurn(fd: int, a: Snapshot, es: seq<Effect>, b: Snapshot, specs: seq<(nat, nat)>, i: nat,
                   res: seq<seq<byte>>, at: nat, more: seq<Effect>, c: Snapshot, piece: seq<byte>, next: nat)
    requires InTurnUpTo(fd, a, es, b, specs, i, res, at) && a.file.fd == fd && i < |specs|
    requires Went(fd, b, more, c) && RingOnly(more) && PieceRead(c.file.bytes, specs[i], at, piece, next)
    ensures InTurnUpTo(fd, a, es + more, c, specs, i + 1, res + [piece], next)
  {
    hide Slice, Went, RingOnly, RingAccepted;
    RingOn(fd, a, es, b, more, c);
    assert specs[..i + 1][..i] == specs[..i] && (res + [piece])[..i] == res;
  }

  /** More ring activity, after which the reads end. */
  lemma EndInTurn(fd: int, a: Snapshot, es: seq<Effect>, b: Snapshot, specs: seq<(nat, nat)>, i: nat,
                  res: seq<seq<byte>>, at: nat, more: seq<Effect>, c: Snapshot)
    requires InTurnUpTo(fd, a, es, b, specs, i, res, at) && a.file.fd == fd
    requires Went(fd, b, more, c) && RingOnly(more)
    ensures Went(fd, a, es + more, c) && RingOnly(es + more)
  {
    RingOn(fd, a, es, b, more, c);
  }

  lemma AllInTurn(fd: int, a: Snapshot, es: seq<Effect>, b: Snapshot, specs: seq<(nat, nat)>, res: seq<seq<byte>>,
                  at: nat)
    requires InTurnUpTo(fd, a, es, b, specs, |specs|, res, at)
    ensures Went(fd, a, es, b) && RingOnly(es) && |res| == |specs| && Seekable(specs)
    ensures RingAccepted(fd, es) == [] ==> ReadInTurn(ByPath, a.file.bytes, 0, specs, res)
  {
    assert specs[..|specs|] == specs;
  }

  lemma ReadAll(bytes: seq<byte>, buf: seq<byte>)
    ensures buf == Slice(bytes, 0, |buf|) && |buf| >= |bytes| ==> buf == bytes
    ensures Slice(bytes, 0, |bytes|) == bytes
  {
  }

  lemma PieceJoins(bytes: seq<byte>, buf: seq<byte>, piece: seq<byte>)
    ensures buf == Slice(bytes, 0, |buf|) && piece == Slice(bytes, |buf|, |piece|) ==>
              buf + piece == Slice(bytes, 0, |buf + piece|)
  {
    if buf == Slice(bytes, 0, |buf|) {
      SliceJoins(bytes, 0, |buf|, |piece|);
    }
  }

  lemma BookedBytes(fd: int, a: Snapshot, es: seq<Effect>, b: Snapshot)
    requires Booked(fd, a, es, [], b) && RingOnly(es) && a.file.fd == fd
    ensures RingAccepted(fd, es) == [] ==> b.file.bytes == a.file.bytes
    ensures Undisturbed(fd, es) ==> RingAccepted(fd, es) == [] && b.file == a.file
  {
    RingOnlyIsNothingDirect(es);
    BookedAppends(fd, a, es, [], b);
    assert a.file.bytes + [] == a.file.bytes;
    if Undisturbed(fd, es) {
      RingOnlyIsStill(a.file, es);
      UndisturbedAcceptsNothing(a.file, es);
    }
  }

  lemma UndisturbedConcat(fd: int, es: seq<Effect>, more: seq<Effect>)
    ensures Undisturbed(fd, es) && Undisturbed(fd, more) ==> Undisturbed(fd, es + more)
  {
    assert forall e | e in es + more :: e in es || e in more;
  }

  lemma {:induction false} JoinedPrefix(pieces: seq<seq<byte>>, n: nat)
    requires n <= |pieces|
    ensures Joined(pieces[..n]) <= Joined(pieces)
  {
    if n < |pieces| {
      JoinedPrefix(pieces[..|pieces| - 1], n);
      assert pieces[..|pieces| - 1][..n] == pieces[..n];
    } else {
      assert pieces[..n] == pieces;
    }
  }

  /** Whole chunks up to the n-th and part of that one, joined. */
  lemma JoinedPart(pieces: seq<seq<byte>>, n: nat, k: nat)
    requires n < |pieces| && k <= |pieces[n]|
    ensures Joined(pieces[..n]) + pieces[n][..k] <= Joined(pieces)
    ensures k == |pieces[n]| ==> Joined(pieces[..n]) + pieces[n][..k] == Joined(pieces[..n + 1])
  {
    JoinedPrefix(pieces, n + 1);
    assert pieces[..n + 1][..n] == pieces[..n];
    assert pieces[n] == pieces[n][..k] + pieces[n][k..];
    assert Joined(pieces[..n + 1]) == Joined(pieces[..n]) + pieces[n];
    assert Joined(pieces[..n]) + pieces[n] == Joined(pieces[..n]) + pieces[n][..k] + pieces[n][k..];
  }

  lemma {:induction false} SumOfLengths(pieces: seq<seq<byte>>, counts: seq<int>)
    requires |counts| == |pieces| && forall i | 0 <= i < |pieces| :: counts[i] == |pieces[i]|
    ensures Sum(counts) == |Joined(pieces)|
  {
    if pieces != [] {
      var n := |pieces| - 1;
      SumOfLengths(pieces[..n], counts[..n]);
    }
  }

  class NativeFileIO {
    const ring: ThreadRing
    const fd: int
    var open: bool

    ghost const origin: File          // the file as it was opened
    ghost var effects: seq<Effect>    // everything that has happened to it since
    ghost var accepted: seq<byte>     // the bytes that the calls so far say they wrote, joined
    ghost var clean: bool             // so far the ring wrote just what the calls it finished counted
    ghost var returned: nat           // the sum of all counts that writing calls have returned
    ghost var erred: bool             // some writing call has returned an error
    ghost var faults: nat             // the stream's own system calls that have failed or got nowhere
    ghost var opens: nat              // how often the path has been opened again

    ghost predicate Valid()
      reads this, ring, ring.counter
    {
      && ring.Ready() && ring.file.fd == fd == origin.fd
      && Took(origin, effects, ring.file)
      && (clean ==> AcceptedInAll(fd, effects) == accepted)
      && (Orderly(ring.hist.log, ring.calls, fd) ==> clean)
    }

    /** The descriptor keeps the access the file was opened with. */
    lemma KeepsAccess()
      requires Valid()
      ensures ring.file.(bytes := origin.bytes, pos := origin.pos) == origin
    {
      RunKeepsDescriptor(origin, effects);
    }

    lemma ItsFile()
      requires Valid()
      ensures ring.file.fd == fd
    {
    }

    ghost function Now(): Snapshot
      reads this, ring
    {
      Snapshot(ring.file, ring.View(), effects, accepted, clean)
    }

    /** The position is at the end, and the file is as long as the counts returned add up to. */
    ghost predicate Tallied()
      reads this, ring
    {
      ring.file.pos == |ring.file.bytes| == returned
    }

    /** A stream opened for appending: the file is what it was when opened, followed by every byte
        accepted since, by whichever call and route. */
    lemma AppendedContents()
      requires Valid() && origin.append
      ensures ring.file.bytes == origin.bytes + AcceptedInAll(origin.fd, effects)
    {
      AppendRun(origin, effects);
    }

    /** The counts returned add up to the bytes the calls say they wrote, unless one returned an error. */
    ghost predicate Totalled()
      reads this
    {
      erred || |accepted| == returned
    }

    /** So, as long as the ring's failed calls have written nothing and its batches were run in order, and
        whatever stale operations run: the file is what it was when opened, followed by what each call
        returned as written, in the order of the calls, whichever route each took. */
    lemma AcceptedContents()
      requires Valid() && origin.append && (clean || Orderly(ring.hist.log, ring.calls, fd))
      ensures ring.file.bytes == origin.bytes + accepted
      ensures Totalled() && !erred ==> |ring.file.bytes| == |origin.bytes| + returned
    {
      AppendedContents();
    }

    /** A stream opened for truncation, if nothing has sought, read or gone by the path: the same, and
        the position is at the end. */
    lemma TruncatedContents()
      requires Valid() && origin.pos == |origin.bytes| && forall e | e in effects :: Sequential(e)
      requires clean || Orderly(ring.hist.log, ring.calls, fd)
      ensures ring.file.bytes == origin.bytes + accepted && ring.file.pos == |ring.file.bytes|
      ensures Totalled() && !erred ==> |ring.file.bytes| == |origin.bytes| + returned
    {
      SequentialRun(origin, effects);
    }

    /** A stream opened for reading only: whatever is called on it, the file is what it was followed by what
        went by the path, and the ring has put nothing there. */
    lemma ReadOnlyContents()
      requires Valid() && !origin.canWrite
      ensures ring.file.bytes == origin.bytes + AcceptedInAll(fd, effects) && RingAccepted(fd, effects) == []
      ensures clean || Orderly(ring.hist.log, ring.calls, fd) ==> ring.file.bytes == origin.bytes + accepted
      ensures (forall e | e in effects :: !e.PathAppended?) ==> ring.file.bytes == origin.bytes
    {
      ReadOnlyRun(origin, effects);
    }

    /** If no call on the ring has failed, it is enough that batches were run in order. */
    lemma NoFailureIsOrderly()
      requires (forall c | c in ring.calls :: c.ok) && BatchesInOrder(ring.hist.log, ring.calls, fd)
      ensures Orderly(ring.hist.log, ring.calls, fd)
    {
    }

    /** The stream of a file, holding `existing`, just opened with a mode string. */
    constructor (ring: ThreadRing, fd: int, mode: string, existing: seq<byte>)
      requires ring.Ready()
      modifies ring`file
      ensures Valid() && open && this.ring == ring && this.fd == fd && effects == [] && returned == 0
      ensures accepted == [] && clean && Totalled() && !erred
      ensures ring.View() == old(ring.View()) && ring.file == origin
      ensures 'w' in mode ==> Tallied() && ring.file.bytes == [] && !ring.file.append && ring.file.canWrite
      ensures 'w' !in mode ==> ring.file.bytes == existing && ring.file.pos == 0
      ensures ring.file.append <==> 'a' in mode && 'w' !in mode
      ensures ring.file.canRead == FileModes.Parse(mode).readable
      ensures ring.file.canWrite == FileModes.Parse(mode).writable
    {
      FileModes.FlagsMatchMode(mode);
      var flags := FileModes.FlagsOf(FileModes.Parse(mode));
      var f := File(fd, if flags.truncate then [] else existing, 0, flags.append, flags.read, flags.write);
      this.ring, this.fd, this.origin := ring, fd, f;
      open, effects, accepted, clean, returned, erred, faults, opens := true, [], [], true, 0, false, 0, 0;
      new;
      ring.FileBecomes(f);
      TookNothing(f);
    }

    /** NativeFileIO::new: open the path, where there may be no file. A missing file is created exactly
        when the mode writes; without that, or when open(2) does not allow it, there is no stream and the
        file is as it was. */
    static method Open(ring: ThreadRing, fd: int, mode: string, existing: Option<seq<byte>>, allowed: bool)
      returns (r: Result<NativeFileIO>)
      requires ring.Ready()
      modifies ring`file
      ensures r.Ok? <==> allowed && (existing.Some? || 'w' in mode || 'a' in mode || '+' in mode)
      ensures r.Err? ==> r.error == Failed && ring.Ready() && ring.file == old(ring.file)
      ensures r.Ok? ==>
                && fresh(r.value) && r.value.Valid() && r.value.open && r.value.ring == ring && r.value.fd == fd
                && r.value.clean && r.value.accepted == [] && r.value.effects == [] && ring.file == r.value.origin
                && ring.file.pos == 0 && ring.View() == old(ring.View())
                && ring.file.bytes == (if 'w' in mode || existing.None? then [] else existing.value)
                && (ring.file.append <==> 'a' in mode && 'w' !in mode)
    {
      FileModes.FlagsMatchMode(mode);
      if !allowed || (existing.None? && !FileModes.FlagsOf(FileModes.Parse(mode)).create) {
        return Err(Failed);
      }
      var stream := new NativeFileIO(ring, fd, mode, if existing.Some? then existing.value else []);
      r := Ok(stream);
    }

    /** Put on record what has just happened to the file. */
    ghost method Note(a: Snapshot, es: seq<Effect>, counted: seq<byte>)
      requires ring.Ready() && ring.file.fd == fd == origin.fd
      requires Took(origin, effects, a.file) && Took(a.file, es, ring.file)
      requires a.effects == effects && a.accepted == accepted && a.clean == clean
      requires clean ==> AcceptedInAll(fd, effects) == accepted
      requires Orderly(ring.hist.log, ring.calls, fd) ==> clean && RingAccepted(fd, es) == counted
      requires counted == [] || (|es| == 1 && es[0].RingRan?)
      modifies this`effects, this`accepted, this`clean
      ensures Valid() && Booked(fd, a, es, counted, Now())
    {
      hide ThreadRing.Ready, Took, Orderly, Direct, RingAccepted, AcceptedInAll;
      TookTwice(origin, effects, a.file, es, ring.file);
      AcceptedConcat(fd, effects, es);
      if RingAccepted(fd, es) == counted {
        SumsUp(es, counted);
      }
      clean := clean && RingAccepted(fd, es) == counted;
      effects := effects + es;
      accepted := accepted + (counted + Direct(es));
    }

    lemma SumsUp(es: seq<Effect>, counted: seq<byte>)
      requires counted == [] || (|es| == 1 && es[0].RingRan?)
      requires RingAccepted(fd, es) == counted
      ensures AcceptedInAll(fd, es) == counted + Direct(es)
    {
      if counted == [] {
        AcceptedDirectly(fd, es);
      } else {
        assert es == [es[0]];
        AcceptedOne(fd, es[0]);
      }
    }

    lemma OrderlyNow(a: Snapshot, calls: seq<Call>)
      requires a.state.hist.log <= ring.hist.log && calls <= ring.calls
      requires Orderly(a.state.hist.log, calls, fd) ==> a.clean
      ensures Orderly(ring.hist.log, ring.calls, fd) ==> a.clean
    {
      hide Orderly;
      if Orderly(ring.hist.log, ring.calls, fd) {
        OrderlyBefore(a.state.hist.log, calls, ring.hist.log, ring.calls, fd);
      }
    }

    // --- The kernel, and system calls on the descriptor and on the path ---

    /** The kernel goes on with what is in flight on the ring. */
    method Meanwhile() returns (ghost es: seq<Effect>)
      requires Valid()
      modifies this`effects, this`accepted, this`clean
      modifies ring`inflight, ring`cq, ring`memory, ring`file, ring`hist, ring`trace
      ensures Valid() && Went(fd, old(Now()), es, Now())
      ensures |es| == 1 && es[0].RingRan?
      ensures Idle(old(ring.View()), fd) ==> ring.file == old(ring.file)
      ensures |ring.inflight| < |old(ring.inflight)|
              || (ring.inflight == old(ring.inflight) && ring.file == old(ring.file))
      ensures ring.hist.order == old(ring.hist.order)
    {
      ghost var a := Now();
      hide ThreadRing.Ready, Extends, Inv, Idle, Took, KernelMoved, Boundary, Orderly;
      ring.Invariant();
      ring.KernelRuns();
      ring.Invariant();
      ghost var log := Ran(a.state, ring.View());
      es := [RingRan(log)];
      KernelAlone(a.state, ring.View(), a.file, ring.file);
      RunAllKeepsDescriptor(a.file, log);
      TookOne(a.file, RingRan(log));
      AcceptedOne(fd, RingRan(log));
      KernelAccount(a.state, ring.View(), ring.calls, fd);
      OrderlyNow(a, ring.calls);
      Note(a, es, []);
    }

    /** Put one system call of the stream on record. */
    ghost method NoteOne(b: Snapshot, e: Effect)
      requires ring.Ready() && b == Now().(file := b.file) && fd == b.file.fd == origin.fd
      requires Took(origin, effects, b.file) && (clean ==> AcceptedInAll(fd, effects) == accepted)
      requires Orderly(ring.hist.log, ring.calls, fd) ==> clean
      requires CanHappen(b.file, e) && !e.RingRan? && ring.file == Perform(b.file, e)
      modifies this`effects, this`accepted, this`clean
      ensures Valid() && Went(fd, b, [e], Now())
    {
      hide ThreadRing.Ready, Took, Idle, AcceptedInAll, Orderly;
      TookOne(b.file, e);
      AcceptedOne(fd, e);
      Note(b, [e], []);
    }

    lemma OneRead(f: File, es: seq<Effect>, k: nat)
      requires |es| == 1 && es[0].RingRan?
      ensures Reads(es) && BytesRead(f, es) == []
      ensures Reads(es + [DidRead(k)])
      ensures var g := PerformAll(f, es); BytesRead(f, es + [DidRead(k)]) == Slice(g.bytes, g.pos, k)
    {
      assert es[..0] == [] && (es + [DidRead(k)])[..1] == es;
    }

    /** read(2): possibly short, empty only at the end. */
    method OsRead(n: nat) returns (r: Result<seq<byte>>, ghost es: seq<Effect>)
      requires Valid()
      modifies this`effects, this`accepted, this`clean, this`faults
      modifies ring`inflight, ring`cq, ring`memory, ring`file, ring`hist, ring`trace
      ensures Valid() && Went(fd, old(Now()), es, Now()) && Reads(es)
      ensures r.Ok? ==> |r.value| <= n && r.value == BytesRead(old(ring.file), es)
      ensures r.Ok? && r.value == [] && n > 0 ==> ring.file.pos >= |ring.file.bytes|
      ensures r.Err? ==> r.error == Failed && BytesRead(old(ring.file), es) == []
      ensures |ring.inflight| < |old(ring.inflight)|
              || (&& ring.inflight == old(ring.inflight)
                  && (r.Ok? && r.value != [] ==> Left(ring.file) < Left(old(ring.file))))
      ensures ring.hist.order == old(ring.hist.order)
      ensures faults == old(faults) + (if r.Err? then 1 else 0)
      ensures |es| <= 2 && (r.Ok? ==> origin.canRead)
    {
      hide ThreadRing.Ready, Orderly, Idle, Took, Slice, AcceptedInAll, CanHappenAll, PerformAll, BytesRead;
      ghost var a := Now();
      es := Meanwhile();
      KeepsAccess();
      ghost var b := Now();
      WentFrom(fd, a, es, b);
      hide Went;
      var k: int, failed: bool := *, *;
      OneRead(a.file, es, 0);
      if failed || !ring.file.canRead {
        faults := faults + 1;
        return Err(Failed), es;
      }
      var whole := Slice(ring.file.bytes, ring.file.pos, n);
      if !(1 <= k < |whole|) {
        k := |whole|;
      }
      SliceFacts(ring.file, n, k);
      OneRead(a.file, es, k);
      r := Ok(Slice(ring.file.bytes, ring.file.pos, k));
      ring.FileBecomes(ring.file.(pos := ring.file.pos + k));
      NoteOne(b, DidRead(k));
      WentTwice(fd, a, es, b, [DidRead(k)], Now());
      es := es + [DidRead(k)];
    }

    lemma SliceFacts(f: File, n: nat, k: nat)
      requires k <= |Slice(f.bytes, f.pos, n)| && (k > 0 || Slice(f.bytes, f.pos, n) == [])
      ensures |Slice(f.bytes, f.pos, k)| == k <= n
      ensures k == 0 && n > 0 ==> f.pos >= |f.bytes|
      ensures k > 0 ==> Left(f.(pos := f.pos + k)) < Left(f)
    {
    }

    /** write(2): possibly short. */
    method OsWrite(data: seq<byte>) returns (r: Result<nat>, ghost es: seq<Effect>)
      requires Valid()
      modifies this`effects, this`accepted, this`clean, this`faults
      modifies ring`inflight, ring`cq, ring`memory, ring`file, ring`hist, ring`trace
      ensures Valid() && Went(fd, old(Now()), es, Now()) && Writes(es)
      ensures r.Ok? ==> r.value <= |data| && Direct(es) == data[..r.value]
      ensures r.Err? ==> r.error == Failed && Direct(es) == []
      ensures ring.hist.order == old(ring.hist.order)
      ensures r.Ok? ==> origin.canWrite
      ensures faults == old(faults) + (if r.Err? || (r.value == 0 && data != []) then 1 else 0)
    {
      hide ThreadRing.Ready, Orderly, Idle, Took, AcceptedInAll, Direct;
      ghost var a := Now();
      es := Meanwhile();
      KeepsAccess();
      ghost var b := Now();
      hide Went;
      var k: int, failed: bool := *, *;
      DirectOfOne(es, DidWrite([]));
      if failed || !ring.file.canWrite {
        faults := faults + 1;
        return Err(Failed), es;
      }
      if !(0 <= k <= |data|) {
        k := |data|;
      }
      faults := faults + (if k == 0 && data != [] then 1 else 0);
      ring.FileBecomes(WriteSome(ring.file, data[..k]));
      NoteOne(b, DidWrite(data[..k]));
      WentTwice(fd, a, es, b, [DidWrite(data[..k])], Now());
      DirectOfOne(es, DidWrite(data[..k]));
      es := es + [DidWrite(data[..k])];
      r := Ok(k);
    }

    lemma DirectOfOne(es: seq<Effect>, e: Effect)
      requires |es| == 1 && es[0].RingRan?
      ensures Direct(es) == [] && Direct(es + [e]) == DirectIn(e)
      ensures Writes(es) && PathWrites(es) && RingOnly(es)
      ensures e.DidWrite? ==> Writes(es + [e])
      ensures e.PathAppended? ==> PathWrites(es + [e])
    {
      assert es[..0] == [] && (es + [e])[..1] == es;
    }

    /** open(2) on the path. */
    method PathOpen() returns (ok: bool)
      requires Valid()
      modifies this`faults, this`opens
      ensures Valid() && faults == old(faults) + (if ok then 0 else 1) && opens == old(opens) + 1
    {
      opens := opens + 1;
      ok := *;
      if !ok {
        faults := faults + 1;
      }
    }

    /** lseek(2) on another descriptor opened on the path, to a u64 offset. */
    method PathSeek(offset: nat) returns (ok: bool)
      requires Valid()
      modifies this`faults
      ensures Valid() && ok == (offset <= I64_MAX) && faults == old(faults) + (if ok then 0 else 1)
    {
      ok := offset <= I64_MAX;
      if !ok {
        faults := faults + 1;
      }
    }

    /** read(2) at position `at` of another descriptor opened on the path. */
    method PathRead(at: nat, n: nat) returns (r: Result<seq<byte>>, ghost es: seq<Effect>)
      requires Valid()
      modifies this`effects, this`accepted, this`clean, this`faults
      modifies ring`inflight, ring`cq, ring`memory, ring`file, ring`hist, ring`trace
      ensures Valid() && Went(fd, old(Now()), es, Now()) && RingOnly(es)
      ensures r.Ok? ==>
                && |r.value| <= n && r.value == Slice(ring.file.bytes, at, |r.value|)
                && (r.value == [] && n > 0 ==> at >= |ring.file.bytes|)
                && (r.value != [] ==> at < |ring.file.bytes|)
      ensures r.Err? ==> r.error == Failed
      ensures |ring.inflight| < |old(ring.inflight)|
              || (ring.inflight == old(ring.inflight) && ring.file == old(ring.file))
      ensures ring.hist.order == old(ring.hist.order)
      ensures faults == old(faults) + (if r.Err? then 1 else 0)
    {
      hide ThreadRing.Ready, Orderly, Idle, Took, Went, AcceptedInAll;
      es := Meanwhile();
      var k: int, failed: bool := *, *;
      if failed {
        faults := faults + 1;
        return Err(Failed), es;
      }
      var whole := Slice(ring.file.bytes, at, n);
      if !(1 <= k < |whole|) {
        k := |whole|;
      }
      r := Ok(Slice(ring.file.bytes, at, k));
    }

    /** write(2) on another descriptor opened on the path for appending, of at least one byte. */
    method PathWriteSome(data: seq<byte>) returns (r: Result<nat>, ghost es: seq<Effect>)
      requires Valid() && data != []
      modifies this`effects, this`accepted, this`clean, this`faults
      modifies ring`inflight, ring`cq, ring`memory, ring`file, ring`hist, ring`trace
      ensures Valid() && Went(fd, old(Now()), es, Now()) && PathWrites(es)
      ensures r.Ok? ==> 1 <= r.value <= |data| && Direct(es) == data[..r.value]
      ensures r.Err? ==> r.error == Failed && Direct(es) == []
      ensures ring.hist.order == old(ring.hist.order)
      ensures faults == old(faults) + (if r.Err? then 1 else 0)
    {
      hide ThreadRing.Ready, Orderly, Idle, Took, AcceptedInAll, Direct;
      ghost var a := Now();
      es := Meanwhile();
      ghost var b := Now();
      hide Went;
      var k: int := *;
      DirectOfOne(es, PathAppended([]));
      if !(1 <= k <= |data|) {
        faults := faults + 1;
        return Err(Failed), es;
      }
      ring.FileBecomes(ring.file.(bytes := ring.file.bytes + data[..k]));
      NoteOne(b, PathAppended(data[..k]));
      WentTwice(fd, a, es, b, [PathAppended(data[..k])], Now());
      DirectOfOne(es, PathAppended(data[..k]));
      es := es + [PathAppended(data[..k])];
      r := Ok(k);
    }

    // --- Loops of system calls ---

    /** read_to_end: read until a read returns nothing. */
    method ReadToEnd() returns (r: Result<seq<byte>>, ghost es: seq<Effect>)
      requires Valid()
      modifies this`effects, this`accepted, this`clean, this`faults
      modifies ring`inflight, ring`cq, ring`memory, ring`file, ring`hist, ring`trace
      ensures Valid() && Went(fd, old(Now()), es, Now()) && Reads(es)
      ensures r.Ok? ==> r.value == BytesRead(old(ring.file), es) && ring.file.pos >= |ring.file.bytes|
      ensures r.Err? ==> r.error == Failed
      ensures ring.hist.order == old(ring.hist.order)
      ensures r.Ok? ==> origin.canRead
      ensures faults == old(faults) + (if r.Err? then 1 else 0)
    {
      hide Valid, Went, Reads, BytesRead, Left;
      ghost var a := Now();
      var buf := [];
      es := [];
      StartReading(a);
      while true
        invariant faults == old(faults) && ring.hist.order == a.state.hist.order
        invariant Valid() && Went(fd, a, es, Now()) && Reads(es) && buf == BytesRead(a.file, es)
        decreases |ring.inflight|, Left(ring.file)
      {
        var probe: int := *;
        ghost var b := Now();
        var some, more := OsRead(if probe > 0 then probe else 32);
        ReadOn(fd, a, es, b, more, Now());
        es := es + more;
        if some.Err? {
          return Err(some.error), es;
        }
        if some.value == [] {
          assert buf + [] == buf;
          break;
        }
        buf := buf + some.value;
      }
      r := Ok(buf);
    }

    lemma StartReading(a: Snapshot)
      ensures Went(fd, a, [], a) && Reads([]) && BytesRead(a.file, []) == []
    {
      WentNowhere(fd, a);
    }

    /** write_all on the descriptor. */
    method WriteAll(data: seq<byte>) returns (r: Result<nat>, ghost es: seq<Effect>)
      requires Valid()
      modifies this`effects, this`accepted, this`clean, this`faults
      modifies ring`inflight, ring`cq, ring`memory, ring`file, ring`hist, ring`trace
      ensures Valid() && Went(fd, old(Now()), es, Now()) && Writes(es) && Direct(es) <= data
      ensures r.Ok? ==> r.value == |data| && Direct(es) == data
      ensures r.Err? ==> r.error == Failed
      ensures ring.hist.order == old(ring.hist.order)
      ensures r.Ok? && data != [] ==> origin.canWrite
      ensures faults == old(faults) + (if r.Err? then 1 else 0)
    {
      hide Valid, Went, Writes, Direct;
      ghost var a := Now();
      var sent := 0;
      es := [];
      StartWriting(a);
      while sent < |data|
        invariant faults == old(faults) && ring.hist.order == a.state.hist.order
        invariant Valid() && Went(fd, a, es, Now()) && Writes(es) && sent <= |data| && Direct(es) == data[..sent]
        invariant sent > 0 ==> origin.canWrite
      {
        ghost var b := Now();
        var some, more := OsWrite(data[sent..]);
        WriteOn(fd, a, es, b, more, Now());
        es := es + more;
        if some.Err? {
          return Err(some.error), es;
        }
        assert data[..sent] + data[sent..][..some.value] == data[..sent + some.value];
        sent := sent + some.value;
        if some.value == 0 {
          return Err(Failed), es;
        }
      }
      r := Ok(|data|);
    }

    lemma StartWriting(a: Snapshot)
      ensures Went(fd, a, [], a) && Writes([]) && PathWrites([]) && RingOnly([]) && Direct([]) == []
    {
      WentNowhere(fd, a);
    }

    /** write_all on another descriptor opened on the path for appending. */
    method PathAppend(data: seq<byte>) returns (r: Result<nat>, ghost es: seq<Effect>)
      requires Valid()
      modifies this`effects, this`accepted, this`clean, this`faults
      modifies ring`inflight, ring`cq, ring`memory, ring`file, ring`hist, ring`trace
      ensures Valid() && Went(fd, old(Now()), es, Now()) && PathWrites(es) && Direct(es) <= data
      ensures r.Ok? ==> r.value == |data| && Direct(es) == data
      ensures r.Err? ==> r.error == Failed
      ensures ring.hist.order == old(ring.hist.order)
      ensures faults == old(faults) + (if r.Err? then 1 else 0)
    {
      hide Valid, Went, PathWrites, Direct;
      ghost var a := Now();
      var sent := 0;
      es := [];
      StartWriting(a);
      while sent < |data|
        invariant faults == old(faults) && ring.hist.order == a.state.hist.order
        invariant Valid() && Went(fd, a, es, Now()) && PathWrites(es) && sent <= |data| && Direct(es) == data[..sent]
      {
        ghost var b := Now();
        var some, more := PathWriteSome(data[sent..]);
        WriteOn(fd, a, es, b, more, Now());
        es := es + more;
        if some.Err? {
          return Err(some.error), es;
        }
        assert data[..sent] + data[sent..][..some.value] == data[..sent + some.value];
        sent := sent + some.value;
      }
      r := Ok(|data|);
    }

    // --- Synchronous calls ---

    /** One read, or for a negative size reads until the end. On an idle ring the bytes are those from the
        position on, and the position moves by as many, whether or not the call succeeds. */
    method Read(size: int) returns (r: Result<seq<byte>>, ghost es: seq<Effect>)
      requires Valid()
      modifies this`effects, this`accepted, this`clean, this`faults
      modifies ring`inflight, ring`cq, ring`memory, ring`file, ring`hist, ring`trace
      ensures Valid() && Went(fd, old(Now()), es, Now()) && Reads(es) && accepted == old(accepted)
      ensures !open ==> r == Err(Closed) && es == [] && Now() == old(Now())
      ensures r.Ok? ==> r.value == BytesRead(old(ring.file), es) && (size >= 0 ==> |r.value| <= size)
      ensures r.Ok? && (size < 0 || (size > 0 && r.value == [])) ==> ring.file.pos >= |ring.file.bytes|
      ensures r.Err? && open ==> r.error == Failed
      ensures Idle(old(ring.View()), fd) ==>
                var f, data := old(ring.file), BytesRead(old(ring.file), es);
                && Idle(ring.View(), fd)
                && ring.file == f.(pos := f.pos + |data|) && data == Slice(f.bytes, f.pos, |data|)
      ensures old(clean) && Idle(old(ring.View()), fd) ==> clean
      ensures ring.hist.order == old(ring.hist.order)
      ensures faults == old(faults) + (if open && r.Err? then 1 else 0)
      ensures size >= 0 ==> |es| <= 2
      ensures r.Ok? ==> origin.canRead
    {
      hide ThreadRing.Ready, Orderly, Went, Reads, BytesRead, Idle, AcceptedInAll, Took;
      ghost var a := Now();
      if !open {
        es := [];
        StartReading(a);
        ReadsFrom(fd, a, es, Now());
        return Err(Closed), es;
      }
      if size < 0 {
        r, es := ReadToEnd();
      } else {
        r, es := OsRead(size);
      }
      ReadsFrom(fd, a, es, Now());
    }

    /** write_all: every byte, or an error after some prefix. On an idle ring, wherever the position is, the
        file is that of one write of what was accepted. */
    method Write(data: seq<byte>) returns (r: Result<nat>, ghost es: seq<Effect>)
      requires Valid()
      modifies this`effects, this`accepted, this`clean, this`faults, this`returned, this`erred
      modifies ring`inflight, ring`cq, ring`memory, ring`file, ring`hist, ring`trace
      ensures Valid() && Went(fd, old(Now()), es, Now()) && Writes(es) && Direct(es) <= data
      ensures returned == old(returned) + (if r.Ok? then r.value else 0)
      ensures !open ==> r == Err(Closed) && es == [] && Now() == old(Now())
      ensures r.Ok? ==> r.value == |data| && Direct(es) == data
      ensures r.Err? && open ==> r.error == Failed
      ensures Idle(old(ring.View()), fd) ==>
                Idle(ring.View(), fd) && ring.file == WriteSome(old(ring.file), Direct(es))
      ensures old(Tallied()) && r.Ok? && Idle(old(ring.View()), fd) ==> Tallied()
      ensures old(clean) && Idle(old(ring.View()), fd) ==> clean
      ensures erred == (old(erred) || (open && r.Err?)) && (old(Totalled()) ==> Totalled())
      ensures ring.hist.order == old(ring.hist.order)
      ensures r.Ok? && data != [] ==> origin.canWrite
      ensures faults == old(faults) + (if open && r.Err? then 1 else 0)
    {
      hide ThreadRing.Ready, Orderly, Went, Writes, Direct, Idle, AcceptedInAll, Took, WriteSome;
      ghost var a := Now();
      if !open {
        es := [];
        StartWriting(a);
        WritesFrom(fd, a, es, Now());
        return Err(Closed), es;
      }
      r, es := WriteAll(data);
      WritesFrom(fd, a, es, Now());
      if a.file.pos == |a.file.bytes| {
        WriteAtEnd(a.file, Direct(es));
      }
      WentAccepts(fd, a, es, Now());
      if r.Ok? {
        returned := returned + r.value;
      } else {
        erred := true;
      }
    }

    /** lseek(2) */
    method OsSeek(pos: int, whence: int) returns (r: Result<nat>, ghost es: seq<Effect>)
      requires Valid()
      modifies this`effects, this`accepted, this`clean
      modifies ring`inflight, ring`cq, ring`memory, ring`file, ring`hist, ring`trace
      ensures Valid() && Went(fd, old(Now()), es, Now()) && Direct(es) == []
      ensures |es| == 2 && es[0].RingRan? && es[1] == DidSeek(whence, pos)
      ensures var f := PerformAll(old(ring.file), es[..1]);
              r == SeekResult(f, whence, pos) && ring.file == f.(pos := if r.Ok? then r.value else f.pos)
      ensures Idle(old(ring.View()), fd) ==>
                Idle(ring.View(), fd) && PerformAll(old(ring.file), es[..1]) == old(ring.file)
      ensures ring.hist.order == old(ring.hist.order)
    {
      hide ThreadRing.Ready, Orderly, Idle, AcceptedInAll, CanHappenAll, SeekTarget;
      ghost var a := Now();
      es := Meanwhile();
      ghost var b, e := Now(), DidSeek(whence, pos);
      WentFrom(fd, a, es, b);
      hide Went, Took, PerformAll;
      r := SeekResult(ring.file, whence, pos);
      ring.FileBecomes(ring.file.(pos := if r.Ok? then r.value else ring.file.pos));
      NoteOne(b, e);
      WentTwice(fd, a, es, b, [e], Now());
      DirectOfOne(es, e);
      assert (es + [e])[..1] == es;
      es := es + [e];
    }

    lemma SeekGoes(f: File, whence: int, pos: int)
      ensures whence == 0 ==> SeekResult(f, whence, pos) == if 0 <= pos <= I64_MAX then Ok(pos) else Err(Failed)
      ensures whence == 1 ==>
                SeekResult(f, whence, pos) == if 0 <= f.pos + pos <= I64_MAX then Ok(f.pos + pos) else Err(Failed)
      ensures whence == 2 ==>
                SeekResult(f, whence, pos)
                == if 0 <= |f.bytes| + pos <= I64_MAX then Ok(|f.bytes| + pos) else Err(Failed)
    {
    }

    /** Move the position; a target before the start, or past what an i64 holds, is refused. */
    method Seek(pos: int, whence: int) returns (r: Result<nat>, ghost es: seq<Effect>)
      requires Valid()
      modifies this`effects, this`accepted, this`clean
      modifies ring`inflight, ring`cq, ring`memory, ring`file, ring`hist, ring`trace
      ensures Valid() && Went(fd, old(Now()), es, Now()) && accepted == old(accepted)
      ensures !open ==> r == Err(Closed) && Now() == old(Now())
      ensures open && whence !in {0, 1, 2} ==> r == Err(BadWhence) && Now() == old(Now())
      ensures open && whence in {0, 1, 2} ==>
                && |es| == 2 && es[0].RingRan? && es[1] == DidSeek(whence, pos)
                && var f := PerformAll(old(ring.file), es[..1]);
                && r == SeekResult(f, whence, pos) && ring.file == f.(pos := if r.Ok? then r.value else f.pos)
      ensures r.Ok? ==> ring.file.pos == r.value
      ensures Idle(old(ring.View()), fd) ==>
                && Idle(ring.View(), fd)
                && ring.file == old(ring.file).(pos := if r.Ok? then r.value else old(ring.file).pos)
                && (open && whence in {0, 1, 2} ==> r == SeekResult(old(ring.file), whence, pos))
      ensures old(clean) && Idle(old(ring.View()), fd) ==> clean
      ensures ring.hist.order == old(ring.hist.order)
      ensures open && whence == 0 ==> r == if 0 <= pos <= I64_MAX then Ok(pos) else Err(Failed)
      ensures open && whence == 1 && Idle(old(ring.View()), fd) ==>
                r == if 0 <= old(ring.file).pos + pos <= I64_MAX then Ok(old(ring.file).pos + pos) else Err(Failed)
      ensures open && whence == 2 ==>
                r == if 0 <= |ring.file.bytes| + pos <= I64_MAX then Ok(|ring.file.bytes| + pos) else Err(Failed)
    {
      hide ThreadRing.Ready, Orderly, Idle, AcceptedInAll, Took, PerformAll, SeekResult;
      ghost var a := Now();
      es := [];
      StartWriting(a);
      hide Went;
      if !open {
        return Err(Closed), es;
      }
      if whence != 0 && whence != 1 && whence != 2 {
        return Err(BadWhence), es;
      }
      r, es := OsSeek(pos, whence);
      SeekGoes(PerformAll(a.file, es[..1]), whence, pos);
      WentAccepts(fd, a, es, Now());
      StaysClean(fd, a, es, Now());
    }

    /** The current position, as of the call's return. */
    method Tell() returns (r: Result<nat>, ghost es: seq<Effect>)
      requires Valid()
      modifies this`effects, this`accepted, this`clean
      modifies ring`inflight, ring`cq, ring`memory, ring`file, ring`hist, ring`trace
      ensures Valid() && Went(fd, old(Now()), es, Now()) && accepted == old(accepted)
      ensures !open ==> r == Err(Closed) && Now() == old(Now())
      ensures open ==> r == if ring.file.pos <= I64_MAX then Ok(ring.file.pos) else Err(Failed)
      ensures Idle(old(ring.View()), fd) ==>
                Idle(ring.View(), fd) && ring.file == old(ring.file)
      ensures old(clean) && Idle(old(ring.View()), fd) ==> clean
      ensures ring.hist.order == old(ring.hist.order)
    {
      hide Valid, Went, Idle;
      ghost var f := ring.file;
      r, es := Seek(0, 1);
      if open {
        SeekGoes(PerformAll(f, es[..1]), 1, 0);
      }
    }

    method Close()
      requires Valid()
      modifies this`open
      ensures Valid() && !open
    {
      open := false;
    }

    // --- Asynchronous calls ---

    lemma RingTook(a: Snapshot)
      requires Progressed(a.file, a.state, ring.file, ring.View())
      ensures a.state.hist.log <= ring.hist.log && ring.file.fd == a.file.fd
      ensures var log := Ran(a.state, ring.View());
              && Took(a.file, [RingRan(log)], ring.file)
              && RingAccepted(fd, [RingRan(log)]) == Accepted(fd, log) && Direct([RingRan(log)]) == []
    {
      hide Extends, Accepted;
      var log := Ran(a.state, ring.View());
      TookOne(a.file, RingRan(log));
      AcceptedOne(fd, RingRan(log));
      RunAllKeepsDescriptor(a.file, log);
    }

    /** The ring half of aread. */
    method RingRead(size: int) returns (r: Result<seq<byte>>, ghost es: seq<Effect>)
      requires Valid() && ring.counter.issued + 1 < U64
      modifies this`effects, this`accepted, this`clean, this`returned, ring, ring.counter
      ensures Valid() && Went(fd, old(Now()), es, Now()) && returned == old(returned)
      ensures old(ring.hist.log) <= ring.hist.log && es == [RingRan(Ran(old(ring.View()), ring.View()))]
      ensures r.Ok? ==> HeldDuring(old(ring.file), Ran(old(ring.View()), ring.View()), 0, r.value)
      ensures Idle(old(ring.View()), fd) ==> Idle(ring.View(), fd) && ring.file == old(ring.file)
      ensures Idle(old(ring.View()), fd) && r.Ok? ==> AnswersRead(ring.file.bytes, size, true, r.value)
      ensures Quiet(old(ring.View())) && r.Ok? ==> Quiet(ring.View())
      ensures ring.counter.issued == old(ring.counter.issued) + 1
      ensures |ring.calls| == |old(ring.calls)| + 1 && ring.calls[|old(ring.calls)|].ok == r.Ok?
      ensures Pushed(old(ring.hist.order), ring.hist.order, [Op.Read(fd, 0, (if size < 0 then 65536 else size) % U32)])
      ensures r.Ok? ==> |ring.hist.order| == |old(ring.hist.order)| + 1 && origin.canRead
    {
      hide ThreadRing.Ready, Pushed, Orderly, Extends, Inv, FileModel.Advances, Called, Boundary, Idle, Quiet,
           HeldDuring, Took, AcceptedInAll;
      var readSize := if size < 0 then DEFAULT_READ else size;
      ghost var a, calls := Now(), ring.calls;
      ring.Invariant();
      KeepsAccess();
      ghost var start, p, results;
      r, start, p, results := ring.SubmitUringRead(fd, 0, readSize);
      ring.Invariant();
      ReadCall(a.state, ring.View(), a.file, ring.file, start, 0, readSize, p, results);
      CalledPushed(a.state, ring.View(), start, [ReadOp(fd, 0, readSize)], p, results);
      RingTook(a);
      es := [RingRan(Ran(a.state, ring.View()))];
      ReadCallAccount(a.state, ring.View(), calls, start, [ReadOp(fd, 0, readSize)], p, results, r.Ok?, ring.calls, fd);
      OrderlyNow(a, calls);
      Note(a, es, []);
      if r.Ok? {
        FilledOne(ring.hist, start, r.value);
      }
    }

    /** read_to_end on the reopened path. */
    method PathReadToEnd() returns (r: Result<seq<byte>>, ghost es: seq<Effect>)
      requires Valid()
      modifies this`effects, this`accepted, this`clean, this`faults
      modifies ring`inflight, ring`cq, ring`memory, ring`file, ring`hist, ring`trace
      ensures Valid() && Went(fd, old(Now()), es, Now()) && RingOnly(es)
      ensures r.Ok? && RingAccepted(fd, es) == [] ==> r.value == old(ring.file).bytes
      ensures r.Err? ==> r.error == Failed
      ensures ring.hist.order == old(ring.hist.order)
      ensures faults == old(faults) + (if r.Err? then 1 else 0)
    {
      ghost var a := Now();
      assert a.file.fd == fd;
      hide Valid, Went, RingOnly, RingAccepted, Slice;
      es := [];
      StartWriting(a);
      var buf := [];
      NoSlice(a.file.bytes, 0);
      SameBytes(fd, a, es, Now());
      while true
        invariant faults == old(faults) && ring.hist.order == a.state.hist.order
        invariant Valid() && Went(fd, a, es, Now()) && RingOnly(es)
        invariant RingAccepted(fd, es) == [] ==> buf == Slice(a.file.bytes, 0, |buf|)
        decreases |ring.inflight|, if |buf| < |ring.file.bytes| then |ring.file.bytes| - |buf| else 0
      {
        var probe: int := *;
        ghost var b := Now();
        var some, more := PathRead(|buf|, if probe > 0 then probe else 32);
        RingOn(fd, a, es, b, more, Now());
        es := es + more;
        if some.Err? {
          return Err(some.error), es;
        }
        if some.value == [] {
          ReadAll(a.file.bytes, buf);
          break;
        }
        PieceJoins(a.file.bytes, buf, some.value);
        buf := buf + some.value;
      }
      r := Ok(buf);
    }

    /** Reopen the path and read from its start, to the end if the size is negative. */
    method PathReadAll(size: int) returns (r: Result<seq<byte>>, ghost es: seq<Effect>)
      requires Valid()
      modifies this`effects, this`accepted, this`clean, this`faults, this`opens
      modifies ring`inflight, ring`cq, ring`memory, ring`file, ring`hist, ring`trace
      ensures Valid() && Went(fd, old(Now()), es, Now()) && RingOnly(es)
      ensures r.Ok? && RingAccepted(fd, es) == [] ==> AnswersRead(old(ring.file).bytes, size, false, r.value)
      ensures r.Ok? && size >= 0 ==> |r.value| <= size && r.value == Slice(ring.file.bytes, 0, |r.value|)
      ensures r.Err? ==> r.error == Failed
      ensures ring.hist.order == old(ring.hist.order)
      ensures opens == old(opens) + 1
      ensures faults == old(faults) + (if r.Err? then 1 else 0)
    {
      ghost var a := Now();
      assert a.file.fd == fd;
      hide Valid, Went, RingOnly, RingAccepted, Slice;
      es := [];
      StartWriting(a);
      var found := PathOpen();
      if !found {
        return Err(Failed), es;
      }
      if size >= 0 {
        r, es := PathRead(0, size);
        SameBytes(fd, a, es, Now());
      } else {
        r, es := PathReadToEnd();
        ReadAll(a.file.bytes, a.file.bytes);
      }
    }

    /** Read from the start of the file: by the ring, or if that fails by the path. On a ring where
        nothing that could touch this descriptor is waiting, neither route changes the file or its
        position, and both return a prefix of the file. Otherwise the ring still returns what the file
        held at some moment of the call, and so does one read by the path. */
    method ARead(size: int) returns (r: Result<seq<byte>>, ghost viaRing: bool, ghost es: seq<Effect>)
      requires Valid() && ring.counter.issued + 1 < U64
      modifies this`effects, this`accepted, this`clean, this`faults, this`opens, this`returned, ring, ring.counter
      ensures Valid() && Went(fd, old(Now()), es, Now()) && RingOnly(es) && returned == old(returned)
      ensures !open ==> r == Err(Closed) && es == [] && Now() == old(Now())
      ensures Idle(old(ring.View()), fd) ==>
                && Idle(ring.View(), fd) && Undisturbed(fd, es) && ring.file == old(ring.file)
                && (r.Ok? ==> AnswersRead(ring.file.bytes, size, viaRing, r.value))
      ensures viaRing ==>
                && r.Ok? && old(ring.hist.log) <= ring.hist.log
                && HeldDuring(old(ring.file), Ran(old(ring.View()), ring.View()), 0, r.value)
      ensures r.Ok? && !viaRing && size >= 0 ==> r.value == Slice(ring.file.bytes, 0, |r.value|)
      ensures viaRing && Quiet(old(ring.View())) ==> Quiet(ring.View())
      ensures old(clean) && Idle(old(ring.View()), fd) ==> clean
      ensures ring.counter.issued == old(ring.counter.issued) + (if open then 1 else 0)
      ensures accepted == old(accepted) && (viaRing ==> origin.canRead)
      ensures opens == old(opens) + (if open && !viaRing then 1 else 0)
      ensures faults == old(faults) + (if open && r.Err? then 1 else 0)
      ensures !open ==> ring.calls == old(ring.calls)
      ensures open ==> |ring.calls| == |old(ring.calls)| + 1 && (viaRing <==> ring.calls[|old(ring.calls)|].ok)
      ensures Pushed(old(ring.hist.order), ring.hist.order, [Op.Read(fd, 0, (if size < 0 then 65536 else size) % U32)])
    {
      hide ThreadRing.Ready, Pushed, Orderly, Extends, Idle, Quiet, HeldDuring, Took, AcceptedInAll, Went, RingOnly,
           RingAccepted, AnswersRead, Slice, Ran;
      viaRing := false;
      NothingPushedYet(ring.hist.order, [Op.Read(fd, 0, (if size < 0 then 65536 else size) % U32)]);
      ghost var a := Now();
      es := [];
      StartWriting(a);
      if !open {
        RingOnlyFrom(fd, a, es, Now());
        return Err(Closed), false, es;
      }
      r, es := RingRead(size);
      OneRunIsRingOnly(es);
      RingOnlyFrom(fd, a, es, Now());
      if r.Ok? {
        viaRing := true;
        return;
      }
      ghost var b := Now();
      ghost var more;
      r, more := PathReadAll(size);
      RingOnlyFrom(fd, b, more, Now());
      WriteOn(fd, a, es, b, more, Now());
      es := es + more;
      RingOnlyFrom(fd, a, es, Now());
    }

    /** The ring half of awrite. */
    method RingWrite(data: seq<byte>) returns (r: Result<nat>, ghost es: seq<Effect>)
      requires Valid() && ring.counter.issued + 1 < U64
      modifies this`effects, this`accepted, this`clean, this`returned, ring, ring.counter
      ensures Valid() && returned == old(returned) + (if r.Ok? then r.value else 0)
      ensures old(ring.hist.log) <= ring.hist.log && es == [RingRan(Ran(old(ring.View()), ring.View()))]
      ensures r.Ok? ==> r.value <= |data|
      ensures Booked(fd, old(Now()), es, if r.Ok? then data[..r.value] else [], Now())
      ensures r.Ok? && Idle(old(ring.View()), fd) ==>
                && Idle(ring.View(), fd) && RingAccepted(fd, es) == data[..r.value]
                && ring.file == WriteSome(old(ring.file), data[..r.value])
      ensures r.Ok? && Quiet(old(ring.View())) ==> Quiet(ring.View())
      ensures ring.counter.issued == old(ring.counter.issued) + 1
      ensures |ring.calls| == |old(ring.calls)| + 1 && ring.calls[|old(ring.calls)|].ok == r.Ok?
      ensures Pushed(old(ring.hist.order), ring.hist.order, [WriteOp(fd, data)])
      ensures r.Ok? ==> |ring.hist.order| == |old(ring.hist.order)| + 1 && origin.canWrite
    {
      hide ThreadRing.Ready, Pushed, Orderly, Extends, Inv, Called, Boundary, Idle, Quiet, Accepted, Took,
           AcceptedInAll, RunAll, CanRunAll, WriteSome, FileModel.Advances;
      ghost var a, calls := Now(), ring.calls;
      ring.Invariant();
      KeepsAccess();
      ghost var start, p, results;
      r, start, p, results := ring.SubmitUringWrite(fd, data);
      ring.Invariant();
      WriteCall(a.state, ring.View(), a.file, ring.file, start, data, p, results);
      CalledPushed(a.state, ring.View(), start, [WriteOp(fd, data)], p, results);
      RingTook(a);
      es := [RingRan(Ran(a.state, ring.View()))];
      WriteOneAccount(a.state, ring.View(), calls, start, fd, data, p, results, r.Ok?, ring.calls);
      OrderlyNow(a, calls);
      Note(a, es, if r.Ok? then data[..r.value] else []);
      if r.Ok? {
        returned := returned + r.value;
      }
    }

    /** Reopen the path for appending and write everything there. */
    method PathWrite(data: seq<byte>) returns (r: Result<nat>, ghost es: seq<Effect>)
      requires Valid()
      modifies this`effects, this`accepted, this`clean, this`faults, this`opens
      modifies ring`inflight, ring`cq, ring`memory, ring`file, ring`hist, ring`trace
      ensures Valid() && Went(fd, old(Now()), es, Now()) && PathWrites(es) && Direct(es) <= data
      ensures r.Ok? ==> r.value == |data| && Direct(es) == data
      ensures r.Err? ==> r.error == Failed
      ensures ring.hist.order == old(ring.hist.order)
      ensures opens == old(opens) + 1
      ensures faults == old(faults) + (if r.Err? then 1 else 0)
    {
      hide Valid, Went, PathWrites, Direct;
      es := [];
      StartWriting(Now());
      var found := PathOpen();
      if found {
        r, es := PathAppend(data);
      } else {
        r := Err(Failed);
      }
    }

    /** Write at the current position by the ring, or if that fails append all of it by the path. On an
        idle ring, wherever the position is, a call the ring finished is one write of the counted prefix
        of `data`. A call that went by the path appended all it says, on any stream, provided the ring
        accepted nothing meanwhile. On a stream opened for appending, either route adds exactly what the
        two accepted. */
    method AWrite(data: seq<byte>) returns (r: Result<nat>, ghost viaRing: bool, ghost es: seq<Effect>)
      requires Valid() && ring.counter.issued + 1 < U64
      modifies this`effects, this`accepted, this`clean, this`faults, this`opens, this`returned,
               this`erred, ring, ring.counter
      ensures Valid() && returned == old(returned) + (if r.Ok? then r.value else 0)
      ensures !open ==> r == Err(Closed) && es == [] && !viaRing && Now() == old(Now())
      ensures viaRing ==>
                && r.Ok? && r.value <= |data| && Booked(fd, old(Now()), es, data[..r.value], Now())
                && old(ring.hist.log) <= ring.hist.log && es == [RingRan(Ran(old(ring.View()), ring.View()))]
      ensures viaRing && Idle(old(ring.View()), fd) ==>
                && Idle(ring.View(), fd) && RingAccepted(fd, es) == data[..r.value]
                && ring.file == WriteSome(old(ring.file), data[..r.value])
      ensures viaRing && Quiet(old(ring.View())) ==> Quiet(ring.View())
      ensures !viaRing ==>
                && Booked(fd, old(Now()), es, [], Now()) && PathWrites(es) && Direct(es) <= data
                && (r.Ok? ==> r.value == |data| && Direct(es) == data)
                && (RingAccepted(fd, es) == [] ==> ring.file.bytes == old(ring.file).bytes + Direct(es))
      ensures old(ring.file).append ==> ring.file.bytes == old(ring.file).bytes + AcceptedInAll(fd, es)
      ensures old(Tallied()) && viaRing && Idle(old(ring.View()), fd) ==> Tallied()
      ensures old(clean) && Idle(old(ring.View()), fd) && viaRing ==> clean
      ensures ring.counter.issued == old(ring.counter.issued) + (if open then 1 else 0)
      ensures erred == (old(erred) || (open && r.Err?)) && (old(Totalled()) ==> Totalled())
      ensures viaRing ==> origin.canWrite
      ensures opens == old(opens) + (if open && !viaRing then 1 else 0)
      ensures faults == old(faults) + (if open && r.Err? then 1 else 0)
      ensures !open ==> ring.calls == old(ring.calls)
      ensures open ==> |ring.calls| == |old(ring.calls)| + 1 && (viaRing <==> ring.calls[|old(ring.calls)|].ok)
      ensures Pushed(old(ring.hist.order), ring.hist.order, [WriteOp(fd, data)])
    {
      hide ThreadRing.Ready, Pushed, Orderly, Ran, Idle, Quiet, Accepted, Took, AcceptedInAll, Went, PathWrites, Direct,
           RingAccepted, Booked, WriteSome;
      viaRing := false;
      NothingPushedYet(ring.hist.order, [WriteOp(fd, data)]);
      ghost var a := Now();
      es := [];
      StartWriting(a);
      WentIsBooked(fd, a, es, Now());
      if !open {
        BookedAppends(fd, a, es, [], Now());
        return Err(Closed), false, es;
      }
      r, es := RingWrite(data);
      if r.Ok? {
        viaRing := true;
        BookedAppends(fd, a, es, data[..r.value], Now());
        BookedAccounts(fd, a, es, data[..r.value], Now());
        OneRunIsRingOnly(es);
        if a.file.pos == |a.file.bytes| {
          WriteAtEnd(a.file, data[..r.value]);
        }
        return;
      }
      ghost var b := Now();
      ghost var more;
      OneRunIsRingOnly(es);
      r, more := PathWrite(data);
      WentIsBooked(fd, b, more, Now());
      BookedTwice(fd, a, es, b, more, Now());
      KindsConcat(es, more);
      DirectConcat(es, more);
      NothingFirst(Direct(more));
      es := es + more;
      BookedAppends(fd, a, es, [], Now());
      BookedAccounts(fd, a, es, [], Now());
      if r.Ok? {
        returned := returned + r.value;
      } else {
        erred := true;
      }
    }

    /** One specification on the reopened path: seek there if it gives an offset, then read, and stand
        behind what was read. */
    method PathReadOne(spec: (nat, nat), at: nat)
      returns (r: Result<seq<byte>>, next: nat, ghost es: seq<Effect>)
      requires Valid()
      modifies this`effects, this`accepted, this`clean, this`faults
      modifies ring`inflight, ring`cq, ring`memory, ring`file, ring`hist, ring`trace
      ensures Valid() && Went(fd, old(Now()), es, Now()) && RingOnly(es)
      ensures r.Ok? ==> PieceRead(ring.file.bytes, spec, at, r.value, next)
      ensures r.Err? ==> r.error == Failed
      ensures faults == old(faults) + (if r.Err? then 1 else 0) && ring.hist.order == old(ring.hist.order)
    {
      hide Valid, Went, RingOnly, Slice;
      es := [];
      next := at;
      StartWriting(Now());
      if spec.0 != CURRENT {
        var sought := PathSeek(spec.0);
        if !sought {
          return Err(Failed), next, es;
        }
        next := spec.0;
      }
      r, es := PathRead(next, spec.1);
      if r.Ok? {
        next := next + |r.value|;
      }
    }

    /** On the reopened path: seek and read for each specification in turn. */
    method PathReadEach(specs: seq<(nat, nat)>) returns (r: Result<seq<seq<byte>>>, ghost es: seq<Effect>)
      requires Valid()
      modifies this`effects, this`accepted, this`clean, this`faults
      modifies ring`inflight, ring`cq, ring`memory, ring`file, ring`hist, ring`trace
      ensures Valid() && Went(fd, old(Now()), es, Now()) && RingOnly(es)
      ensures r.Ok? ==> |r.value| == |specs| && Seekable(specs)
      ensures r.Ok? && RingAccepted(fd, es) == [] ==> ReadInTurn(ByPath, old(ring.file).bytes, 0, specs, r.value)
      ensures r.Err? ==> r.error == Failed
      ensures faults == old(faults) + (if r.Err? then 1 else 0) && ring.hist.order == old(ring.hist.order)
    {
      ItsFile();
      ghost var a := Now();
      hide Valid, Went, RingOnly, RingAccepted, Slice, ReadInTurn, InTurnUpTo, PieceRead, Seekable;
      es := [];
      StartWriting(a);
      StartInTurn(fd, a, specs);
      var at: nat := 0;
      var res := [];
      for i := 0 to |specs|
        invariant faults == old(faults) && ring.hist.order == old(ring.hist.order)
        invariant Valid() && InTurnUpTo(fd, a, es, Now(), specs, i, res, at)
      {
        ghost var b := Now();
        var some, next, more := PathReadOne(specs[i], at);
        if some.Err? {
          EndInTurn(fd, a, es, b, specs, i, res, at, more, Now());
          return Err(Failed), es + more;
        }
        NextInTurn(fd, a, es, b, specs, i, res, at, more, Now(), some.value, next);
        es, at, res := es + more, next, res + [some.value];
      }
      AllInTurn(fd, a, es, Now(), specs, res, at);
      r := Ok(res);
    }

    /** Reopen the path and read there what each specification says. */
    method PathReadBatch(specs: seq<(nat, nat)>) returns (r: Result<seq<seq<byte>>>, ghost es: seq<Effect>)
      requires Valid()
      modifies this`effects, this`accepted, this`clean, this`faults, this`opens
      modifies ring`inflight, ring`cq, ring`memory, ring`file, ring`hist, ring`trace
      ensures Valid() && Went(fd, old(Now()), es, Now()) && RingOnly(es)
      ensures r.Ok? ==> |r.value| == |specs| && Seekable(specs)
      ensures r.Ok? && RingAccepted(fd, es) == [] ==> ReadInTurn(ByPath, old(ring.file).bytes, 0, specs, r.value)
      ensures r.Err? ==> r.error == Failed
      ensures opens == old(opens) + 1 && ring.hist.order == old(ring.hist.order)
      ensures faults == old(faults) + (if r.Err? then 1 else 0)
    {
      hide Valid, Went, RingOnly, RingAccepted, ReadInTurn, Seekable;
      es := [];
      StartWriting(Now());
      var found := PathOpen();
      if !found {
        return Err(Failed), es;
      }
      r, es := PathReadEach(specs);
    }

    /** The ring half of aread_batch. */
    method RingReadBatch(specs: seq<(nat, nat)>) returns (r: Result<seq<seq<byte>>>, ghost es: seq<Effect>)
      requires Valid() && ring.counter.issued + |specs| < U64
      modifies this`effects, this`accepted, this`clean, this`returned, ring, ring.counter
      ensures Valid() && Booked(fd, old(Now()), es, [], Now()) && returned == old(returned)
      ensures old(ring.hist.log) <= ring.hist.log && es == [RingRan(Ran(old(ring.View()), ring.View()))]
      ensures r.Ok? ==> |r.value| == |specs| && Seekable(specs)
      ensures r.Ok? ==> AllHeld(old(ring.file), Ran(old(ring.View()), ring.View()), specs, r.value)
      ensures Positioned(specs) && Idle(old(ring.View()), fd) ==>
                Idle(ring.View(), fd) && Undisturbed(fd, es) && ring.file == old(ring.file)
      ensures r.Ok? && Idle(old(ring.View()), fd) ==>
                && Idle(ring.View(), fd) && RingAccepted(fd, es) == []
                && (exists perm :: Tiled(old(ring.file), ring.file, specs, r.value, perm))
                && (InOrder(old(ring.View()), Ran(old(ring.View()), ring.View())) ==>
                      ReadInTurn(ByRing, old(ring.file).bytes, old(ring.file).pos, specs, r.value))
      ensures Quiet(old(ring.View())) && r.Ok? ==> Quiet(ring.View())
      ensures ring.counter.issued == old(ring.counter.issued) + |specs|
      ensures |ring.calls| == |old(ring.calls)| + 1 && ring.calls[|old(ring.calls)|].ok == r.Ok?
      ensures Pushed(old(ring.hist.order), ring.hist.order, ReadOps(fd, specs))
      ensures r.Ok? ==> |ring.hist.order| == |old(ring.hist.order)| + |specs| && (specs != [] ==> origin.canRead)
    {
      hide ThreadRing.Ready, Pushed, Orderly, Extends, Inv, Called, Boundary, Idle, Quiet, Positioned, Tiled, InOrder,
           Seekable, ReadInTurn, Filled, Took, AllHeld, AcceptedInAll, Accepted, FileModel.Advances;
      ghost var a, calls := Now(), ring.calls;
      ring.Invariant();
      KeepsAccess();
      ghost var start, p, results;
      r, start, p, results := ring.SubmitUringReadBatch(fd, specs);
      ring.Invariant();
      CalledPushed(a.state, ring.View(), start, ReadOps(fd, specs), p, results);
      RingTook(a);
      es := [RingRan(Ran(a.state, ring.View()))];
      if Positioned(specs) {
        PositionedBatchCall(a.state, ring.View(), a.file, ring.file, start, specs, p, results);
      }
      if r.Ok? {
        ReadBatchCall(a.state, ring.View(), a.file, ring.file, start, specs, results, r.value);
      }
      ReadCallAccount(a.state, ring.View(), calls, start, ReadOps(fd, specs), p, results, r.Ok?, ring.calls, fd);
      OrderlyNow(a, calls);
      Note(a, es, []);
    }

    /** Read a batch by the ring, or if that fails by the path. Given positions, and on an idle ring,
        both routes return the file's bytes at those positions and leave the stream alone. Otherwise the
        ring's buffers tile the file from the stream's position on, in the order they were filled, and the
        path's are those of reading in turn from the start of the file. */
    method AReadBatch(specs: seq<(nat, nat)>)
      returns (r: Result<seq<seq<byte>>>, ghost viaRing: bool, ghost es: seq<Effect>)
      requires Valid() && ring.counter.issued + |specs| < U64
      modifies this`effects, this`accepted, this`clean, this`faults, this`opens, this`returned, ring, ring.counter
      ensures Valid() && Booked(fd, old(Now()), es, [], Now()) && RingOnly(es) && returned == old(returned)
      ensures !open ==> r == Err(Closed) && es == [] && !viaRing && Now() == old(Now())
      ensures r.Ok? ==> |r.value| == |specs| && Seekable(specs)
      ensures Positioned(specs) && Idle(old(ring.View()), fd) ==>
                && Idle(ring.View(), fd) && Undisturbed(fd, es) && ring.file == old(ring.file)
                && (r.Ok? ==> ReadInPlace(ring.file.bytes, specs, r.value))
      ensures viaRing ==>
                && r.Ok? && old(ring.hist.log) <= ring.hist.log && es == [RingRan(Ran(old(ring.View()), ring.View()))]
                && AllHeld(old(ring.file), Ran(old(ring.View()), ring.View()), specs, r.value)
      ensures viaRing && Idle(old(ring.View()), fd) ==>
                && Idle(ring.View(), fd) && RingAccepted(fd, es) == []
                && (exists perm :: Tiled(old(ring.file), ring.file, specs, r.value, perm))
                && (InOrder(old(ring.View()), Ran(old(ring.View()), ring.View())) ==>
                      ReadInTurn(ByRing, old(ring.file).bytes, old(ring.file).pos, specs, r.value))
      ensures r.Ok? && !viaRing && RingAccepted(fd, es) == [] ==>
                && ring.file.bytes == old(ring.file).bytes
                && ReadInTurn(ByPath, ring.file.bytes, 0, specs, r.value)
      ensures viaRing && Quiet(old(ring.View())) ==> Quiet(ring.View())
      ensures old(clean) && Idle(old(ring.View()), fd) && (viaRing || Positioned(specs)) ==> clean
      ensures ring.counter.issued == old(ring.counter.issued) + (if open then |specs| else 0)
      ensures accepted == old(accepted) && (viaRing && specs != [] ==> origin.canRead)
      ensures opens == old(opens) + (if open && !viaRing then 1 else 0)
      ensures faults == old(faults) + (if open && r.Err? then 1 else 0)
      ensures !open ==> ring.calls == old(ring.calls)
      ensures open ==> |ring.calls| == |old(ring.calls)| + 1 && (viaRing <==> ring.calls[|old(ring.calls)|].ok)
      ensures Pushed(old(ring.hist.order), ring.hist.order, ReadOps(fd, specs))
    {
      hide ThreadRing.Ready, Pushed, Orderly, Ran, Idle, Quiet, Positioned, Seekable, Tiled, InOrder, ReadInTurn,
           ReadInPlace, Took, AllHeld, AcceptedInAll, Went, Booked, RingOnly, RingAccepted, Undisturbed, Valid, ReadOps;
      viaRing := false;
      NothingPushedYet(ring.hist.order, ReadOps(fd, specs));
      ItsFile();
      ghost var a := Now();
      es := [];
      StartWriting(a);
      WentIsBooked(fd, a, es, Now());
      if !open {
        RingOnlyFrom(fd, a, es, Now());
        return Err(Closed), false, es;
      }
      r, es := RingReadBatch(specs);
      OneRunIsRingOnly(es);
      BookedAccounts(fd, a, es, [], Now());
      if r.Ok? {
        viaRing := true;
        if Positioned(specs) && Idle(a.state, fd) {
          var perm :| Tiled(a.file, ring.file, specs, r.value, perm);
          TiledInPlace(a.file, ring.file, specs, r.value, perm);
        }
        return;
      }
      ItsFile();
      ghost var b := Now();
      ghost var more;
      r, more := PathReadBatch(specs);
      RingOnlyFrom(fd, b, more, Now());
      WentIsBooked(fd, b, more, Now());
      BookedTwice(fd, a, es, b, more, Now());
      KindsConcat(es, more);
      RingConcat(fd, es, more);
      BookedBytes(fd, a, es, b);
      UndisturbedConcat(fd, es, more);
      es := es + more;
      BookedBytes(fd, a, es, Now());
      BookedAccounts(fd, a, es, [], Now());
      RingOnlyIsNothingDirect(es);
      if r.Ok? && RingAccepted(fd, es) == [] {
        InTurnIsInPlace(ByPath, a.file.bytes, 0, specs, r.value);
      }
    }

    lemma TiledInPlace(f: File, g: File, specs: seq<(nat, nat)>, buffers: seq<seq<byte>>, perm: seq<int>)
      requires Tiled(f, g, specs, buffers, perm)
      ensures ReadInPlace(f.bytes, specs, buffers)
    {
    }

    /** Reopen the path for appending and write every chunk there in turn. */
    method PathWriteBatch(chunks: seq<seq<byte>>) returns (r: Result<seq<int>>, ghost es: seq<Effect>)
      requires Valid()
      modifies this`effects, this`accepted, this`clean, this`faults, this`opens
      modifies ring`inflight, ring`cq, ring`memory, ring`file, ring`hist, ring`trace
      ensures Valid() && Went(fd, old(Now()), es, Now()) && PathWrites(es) && Direct(es) <= Joined(chunks)
      ensures r.Ok? ==>
                && Direct(es) == Joined(chunks) && |r.value| == |chunks|
                && forall i | 0 <= i < |chunks| :: r.value[i] == |chunks[i]|
      ensures r.Err? ==> r.error == Failed
      ensures ring.hist.order == old(ring.hist.order)
      ensures opens == old(opens) + 1
      ensures faults == old(faults) + (if r.Err? then 1 else 0)
    {
      hide Valid, Went, PathWrites, Direct, Joined;
      ghost var a := Now();
      var res: seq<int> := [];
      es := [];
      StartWriting(a);
      var found := PathOpen();
      if !found {
        return Err(Failed), es;
      }
      NothingJoined(chunks);
      for i := 0 to |chunks|
        invariant opens == old(opens) + 1 && faults == old(faults) && ring.hist.order == a.state.hist.order
        invariant Valid() && Went(fd, a, es, Now()) && PathWrites(es) && Direct(es) == Joined(chunks[..i])
        invariant |res| == i && forall j | 0 <= j < i :: res[j] == |chunks[j]|
      {
        ghost var b := Now();
        var sent, more := PathAppend(chunks[i]);
        WriteOn(fd, a, es, b, more, Now());
        es := es + more;
        JoinedPart(chunks, i, |Direct(more)|);
        assert chunks[i][..|Direct(more)|] == Direct(more);
        if sent.Err? {
          return Err(sent.error), es;
        }
        res := res + [|chunks[i]|];
      }
      assert chunks[..|chunks|] == chunks;
      r := Ok(res);
    }

    lemma NothingJoined(chunks: seq<seq<byte>>)
      ensures Joined(chunks[..0]) == []
    {
    }

    /** The ring half of awrite_batch. */
    method RingWriteBatch(chunks: seq<seq<byte>>) returns (r: Result<seq<int>>, ghost es: seq<Effect>)
      requires Valid() && ring.counter.issued + |chunks| < U64
      modifies this`effects, this`accepted, this`clean, this`returned, ring, ring.counter
      ensures Valid() && returned == old(returned) + (if r.Ok? && Sum(r.value) >= 0 then Sum(r.value) else 0)
      ensures old(ring.hist.log) <= ring.hist.log && es == [RingRan(Ran(old(ring.View()), ring.View()))]
      ensures r.Ok? ==> Counted(chunks, r.value) && Sum(r.value) >= 0
      ensures r.Err? ==> Booked(fd, old(Now()), es, [], Now())
      ensures r.Ok? ==> Booked(fd, old(Now()), es, Joined(Prefixes(chunks, r.value)), Now())
      ensures r.Ok? && Idle(old(ring.View()), fd) ==>
                && Idle(ring.View(), fd) && ring.file == WriteSome(old(ring.file), RingAccepted(fd, es))
                && (exists perm :: SomeOrder(RingAccepted(fd, es), chunks, r.value, perm))
                && (InOrder(old(ring.View()), Ran(old(ring.View()), ring.View())) ==>
                      RingAccepted(fd, es) == Joined(Prefixes(chunks, r.value)))
      ensures r.Ok? && Quiet(old(ring.View())) ==> Quiet(ring.View())
      ensures ring.counter.issued == old(ring.counter.issued) + |chunks|
      ensures |ring.calls| == |old(ring.calls)| + 1 && ring.calls[|old(ring.calls)|].ok == r.Ok?
      ensures Pushed(old(ring.hist.order), ring.hist.order, WriteOps(fd, chunks))
      ensures r.Ok? ==> |ring.hist.order| == |old(ring.hist.order)| + |chunks| && (chunks != [] ==> origin.canWrite)
    {
      hide ThreadRing.Ready, Pushed, Orderly, Extends, Inv, Called, Boundary, Idle, Quiet, Accepted, RunAll,
           CanRunAll, Sum, Took, AcceptedInAll, SomeOrder, InOrder, WriteSome, Joined, Prefixes;
      ghost var a, calls := Now(), ring.calls;
      ring.Invariant();
      KeepsAccess();
      ghost var start, p, results;
      r, start, p, results := ring.SubmitUringWriteBatch(fd, chunks);
      ring.Invariant();
      CalledPushed(a.state, ring.View(), start, WriteOps(fd, chunks), p, results);
      RingTook(a);
      es := [RingRan(Ran(a.state, ring.View()))];
      if r.Ok? {
        SumIsNat(r.value);
        WriteBatchCall(a.state, ring.View(), a.file, ring.file, start, chunks, results);
        returned := returned + Sum(r.value);
      }
      WriteCallAccount(a.state, ring.View(), calls, start, fd, chunks, p, results, r.Ok?, ring.calls);
      OrderlyNow(a, calls);
      Note(a, es, if r.Ok? then Joined(Prefixes(chunks, r.value)) else []);
    }

    /** Write a batch at the current position by the ring, or if that fails append it by the path. On an
        idle ring, wherever the position is, a batch the ring finished is one write of the counted prefix
        of each chunk, once each, in the order the kernel ran them; run in order, of the prefixes joined.
        The path route appends every chunk whole, in order, on any stream, provided the ring accepted
        nothing meanwhile. On a stream opened for appending, either route adds exactly what the two
        accepted. */
    method AWriteBatch(chunks: seq<seq<byte>>)
      returns (r: Result<seq<int>>, ghost viaRing: bool, ghost es: seq<Effect>)
      requires Valid() && ring.counter.issued + |chunks| < U64
      modifies this`effects, this`accepted, this`clean, this`faults, this`opens, this`returned,
               this`erred, ring, ring.counter
      ensures Valid() && returned == old(returned) + (if r.Ok? && Sum(r.value) >= 0 then Sum(r.value) else 0)
      ensures !open ==> r == Err(Closed) && es == [] && !viaRing && Now() == old(Now())
      ensures r.Ok? ==> Counted(chunks, r.value) && Sum(r.value) >= 0
      ensures viaRing ==>
                && r.Ok? && Booked(fd, old(Now()), es, Joined(Prefixes(chunks, r.value)), Now())
                && old(ring.hist.log) <= ring.hist.log && es == [RingRan(Ran(old(ring.View()), ring.View()))]
      ensures viaRing && Idle(old(ring.View()), fd) ==>
                && Idle(ring.View(), fd) && ring.file == WriteSome(old(ring.file), RingAccepted(fd, es))
                && (exists perm :: SomeOrder(RingAccepted(fd, es), chunks, r.value, perm))
                && (InOrder(old(ring.View()), Ran(old(ring.View()), ring.View())) ==>
                      RingAccepted(fd, es) == Joined(Prefixes(chunks, r.value)))
      ensures viaRing && Quiet(old(ring.View())) ==> Quiet(ring.View())
      ensures !viaRing ==>
                && Booked(fd, old(Now()), es, [], Now()) && PathWrites(es) && Direct(es) <= Joined(chunks)
                && (r.Ok? ==> Direct(es) == Joined(chunks) && forall i | 0 <= i < |chunks| :: r.value[i] == |chunks[i]|)
                && (RingAccepted(fd, es) == [] ==> ring.file.bytes == old(ring.file).bytes + Direct(es))
      ensures old(ring.file).append ==> ring.file.bytes == old(ring.file).bytes + AcceptedInAll(fd, es)
      ensures old(Tallied()) && viaRing && Idle(old(ring.View()), fd) ==> Tallied()
      ensures old(clean) && viaRing && Idle(old(ring.View()), fd) ==>
                (InOrder(old(ring.View()), Ran(old(ring.View()), ring.View())) ==> clean)
      ensures ring.counter.issued == old(ring.counter.issued) + (if open then |chunks| else 0)
      ensures erred == (old(erred) || (open && r.Err?)) && (old(Totalled()) ==> Totalled())
      ensures viaRing && chunks != [] ==> origin.canWrite
      ensures opens == old(opens) + (if open && !viaRing then 1 else 0)
      ensures faults == old(faults) + (if open && r.Err? then 1 else 0)
      ensures !open ==> ring.calls == old(ring.calls)
      ensures open ==> |ring.calls| == |old(ring.calls)| + 1 && (viaRing <==> ring.calls[|old(ring.calls)|].ok)
      ensures Pushed(old(ring.hist.order), ring.hist.order, WriteOps(fd, chunks))
    {
      hide ThreadRing.Ready, Pushed, Orderly, Ran, Idle, Quiet, Accepted, Took, AcceptedInAll, Went, PathWrites, Direct,
           RingAccepted, Booked, WriteSome, Sum, Joined, Prefixes, InOrder, SomeOrder;
      viaRing := false;
      NothingPushedYet(ring.hist.order, WriteOps(fd, chunks));
      ghost var a := Now();
      es := [];
      StartWriting(a);
      WentIsBooked(fd, a, es, Now());
      if !open {
        BookedAppends(fd, a, es, [], Now());
        return Err(Closed), false, es;
      }
      r, es := RingWriteBatch(chunks);
      if r.Ok? {
        viaRing := true;
        BookedAppends(fd, a, es, Joined(Prefixes(chunks, r.value)), Now());
        BookedAccounts(fd, a, es, Joined(Prefixes(chunks, r.value)), Now());
        OneRunIsRingOnly(es);
        TotalIsSum(chunks, r.value);
        TotalIsJoined(Prefixes(chunks, r.value));
        if a.file.pos == |a.file.bytes| && Idle(a.state, fd) {
          var perm :| SomeOrder(RingAccepted(fd, es), chunks, r.value, perm);
          SomeOrderSums(RingAccepted(fd, es), chunks, r.value, perm);
          WriteAtEnd(a.file, RingAccepted(fd, es));
        }
        return;
      }
      ghost var b := Now();
      ghost var more;
      OneRunIsRingOnly(es);
      r, more := PathWriteBatch(chunks);
      WentIsBooked(fd, b, more, Now());
      BookedTwice(fd, a, es, b, more, Now());
      KindsConcat(es, more);
      DirectConcat(es, more);
      NothingFirst(Direct(more));
      es := es + more;
      BookedAppends(fd, a, es, [], Now());
      BookedAccounts(fd, a, es, [], Now());
      if r.Ok? {
        SumOfLengths(chunks, r.value);
        returned := returned + Sum(r.value);
      } else {
        erred := true;
      }
    }

    lemma SomeOrderSums(data: seq<byte>, chunks: seq<seq<byte>>, counts: seq<int>, perm: seq<int>)
      requires SomeOrder(data, chunks, counts, perm)
      ensures |data| == Sum(counts)
    {
    }

    lemma {:induction false} SumIsNat(counts: seq<int>)
      requires forall i | 0 <= i < |counts| :: counts[i] >= 0
      ensures Sum(counts) >= 0
    {
      if counts != [] {
        SumIsNat(counts[..|counts| - 1]);
      }
    }
  }
}
