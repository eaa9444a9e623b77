/** Whole sessions: any list of calls on one stream, one after the other. */
module Sessions {
  import opened IoTypes
  import opened RingProtocol
  import opened LinuxEngine
  import opened Accounts
  import opened BatchTheorems
  import opened StreamRuns
  import opened NativeFile

  datatype Request =
    | Read(size: int)
    | Write(data: seq<byte>)
    | Seek(pos: int, whence: int)
    | Tell
    | ARead(size: int)
    | AWrite(data: seq<byte>)
    | AReadBatch(specs: seq<(nat, nat)>)
    | AWriteBatch(chunks: seq<seq<byte>>)
    | Close

  predicate IsAsync(q: Request) {
    q.ARead? || q.AWrite? || q.AReadBatch? || q.AWriteBatch?
  }

  /** How many ids a request may take. */
  function Ids(q: Request): nat {
    match q
    case ARead(_) => 1
    case AWrite(_) => 1
    case AReadBatch(specs) => |specs|
    case AWriteBatch(chunks) => |chunks|
    case _ => 0
  }

  function AllIds(script: seq<Request>): nat {
    if script == [] then 0 else Ids(script[0]) + AllIds(script[1..])
  }

  /** What a request may account for as written: of a write, a prefix; of a batch by the ring, the counted
      prefix of each chunk, in order; of a batch by the path, a prefix of all of it; of others, nothing. */
  ghost predicate PartOf(q: Request, part: seq<byte>) {
    match q
    case Write(data) => part <= data
    case AWrite(data) => part <= data
    case AWriteBatch(chunks) => part <= Joined(chunks) || IsCounted(chunks, part)
    case _ => part == []
  }

  ghost predicate IsCounted(chunks: seq<seq<byte>>, part: seq<byte>) {
    exists counts :: Counted(chunks, counts) && part == Joined(Prefixes(chunks, counts))
  }

  /** One part for each request, in order. */
  ghost predicate Parts(script: seq<Request>, parts: seq<seq<byte>>) {
    |parts| == |script| && forall i | 0 <= i < |script| :: PartOf(script[i], parts[i])
  }

  lemma WentPart(f: NativeFileIO, a: Snapshot, es: seq<Effect>)
    requires Went(f.fd, a, es, f.Now())
    ensures f.accepted == a.accepted + Direct(es)
  {
    WentAccepts(f.fd, a, es, f.Now());
  }

  lemma BookedPart(f: NativeFileIO, a: Snapshot, es: seq<Effect>, counted: seq<byte>)
    requires Booked(f.fd, a, es, counted, f.Now()) && (counted == [] || (|es| == 1 && es[0].RingRan?))
    ensures f.accepted == a.accepted + (if counted == [] then Direct(es) else counted)
  {
    hide Booked, Direct;
    BookedAccounts(f.fd, a, es, counted, f.Now());
    if counted == [] {
      NothingFirst(Direct(es));
    } else {
      OneRunIsRingOnly(es);
      assert counted + [] == counted;
    }
  }

  method ServeAWrite(f: NativeFileIO, data: seq<byte>) returns (ghost part: seq<byte>)
    requires f.Valid() && f.Totalled() && f.ring.counter.issued + 1 < U64
    modifies f, f.ring, f.ring.counter
    ensures f.Valid() && f.Totalled() && f.open == old(f.open)
    ensures f.ring.counter.issued <= old(f.ring.counter.issued) + 1
    ensures part <= data && f.accepted == old(f.accepted) + part
    ensures |f.ring.calls| == |old(f.ring.calls)| + (if old(f.open) then 1 else 0)
    ensures old(f.open) && !f.ring.calls[|old(f.ring.calls)|].ok ==> part == data || f.faults > old(f.faults)
  {
    hide NativeFileIO.Valid, NativeFileIO.Totalled, Booked, Direct, PathWrites;
    ghost var a := f.Now();
    var r;
    ghost var viaRing, es;
    r, viaRing, es := f.AWrite(data);
    part := [];
    assert f.accepted + [] == f.accepted;
    if viaRing {
      BookedPart(f, a, es, data[..r.value]);
      OneRunIsRingOnly(es);
      part := data[..r.value];
    } else if f.open {
      BookedPart(f, a, es, []);
      part := Direct(es);
    }
  }

  method ServeAWriteBatch(f: NativeFileIO, chunks: seq<seq<byte>>) returns (ghost part: seq<byte>)
    requires f.Valid() && f.Totalled() && f.ring.counter.issued + |chunks| < U64
    modifies f, f.ring, f.ring.counter
    ensures f.Valid() && f.Totalled() && f.open == old(f.open)
    ensures f.ring.counter.issued <= old(f.ring.counter.issued) + |chunks|
    ensures part <= Joined(chunks) || IsCounted(chunks, part)
    ensures f.accepted == old(f.accepted) + part
    ensures |f.ring.calls| == |old(f.ring.calls)| + (if old(f.open) then 1 else 0)
    ensures old(f.open) && !f.ring.calls[|old(f.ring.calls)|].ok ==>
              part == Joined(chunks) || f.faults > old(f.faults)
  {
    hide NativeFileIO.Valid, NativeFileIO.Totalled, Booked, Direct, PathWrites, Counted, Joined, Prefixes;
    ghost var a := f.Now();
    var r;
    ghost var viaRing, es;
    r, viaRing, es := f.AWriteBatch(chunks);
    part := [];
    assert f.accepted + [] == f.accepted;
    if viaRing {
      BookedPart(f, a, es, Joined(Prefixes(chunks, r.value)));
      OneRunIsRingOnly(es);
      part := Joined(Prefixes(chunks, r.value));
      assert IsCounted(chunks, part);
    } else if f.open {
      BookedPart(f, a, es, []);
      part := Direct(es);
    }
  }

  predicate IsReading(q: Request) {
    q.Read? || q.Seek? || q.Tell? || q.ARead? || q.AReadBatch?
  }

  method ServeReading(f: NativeFileIO, q: Request)
    requires f.Valid() && f.ring.counter.issued + Ids(q) < U64 && IsReading(q)
    modifies f, f.ring, f.ring.counter
    ensures f.Valid() && f.open == old(f.open) && (old(f.Totalled()) ==> f.Totalled())
    ensures f.ring.counter.issued <= old(f.ring.counter.issued) + Ids(q) && f.accepted == old(f.accepted)
    ensures |f.ring.calls| == |old(f.ring.calls)| + (if old(f.open) && IsAsync(q) then 1 else 0)
  {
    hide NativeFileIO.Valid, Went, Booked;
    ghost var es, viaRing;
    match q {
      case Read(size) =>
        var r;
        r, es := f.Read(size);
      case Seek(pos, whence) =>
        var r;
        r, es := f.Seek(pos, whence);
      case Tell =>
        var r;
        r, es := f.Tell();
      case ARead(size) =>
        var r;
        r, viaRing, es := f.ARead(size);
      case AReadBatch(specs) =>
        var r;
        r, viaRing, es := f.AReadBatch(specs);
    }
  }

  /** Carry out one request. */
  method Serve(f: NativeFileIO, q: Request) returns (ghost part: seq<byte>)
    requires f.Valid() && f.Totalled() && f.ring.counter.issued + Ids(q) < U64
    modifies f, f.ring, f.ring.counter
    ensures f.Valid() && f.Totalled()
    ensures f.ring.counter.issued <= old(f.ring.counter.issued) + Ids(q)
    ensures PartOf(q, part) && f.accepted == old(f.accepted) + part
    ensures f.open == (old(f.open) && !q.Close?)
    ensures |f.ring.calls| == |old(f.ring.calls)| + (if old(f.open) && IsAsync(q) then 1 else 0)
    ensures old(f.open) && q.Write? ==> part == q.data || f.faults > old(f.faults)
    ensures old(f.open) && q.AWrite? && !f.ring.calls[|old(f.ring.calls)|].ok ==>
              part == q.data || f.faults > old(f.faults)
    ensures old(f.open) && q.AWriteBatch? && !f.ring.calls[|old(f.ring.calls)|].ok ==>
              part == Joined(q.chunks) || f.faults > old(f.faults)
  {
    hide NativeFileIO.Valid, Went, Direct, Writes, IsCounted, Joined;
    part := [];
    assert f.accepted + [] == f.accepted;
    match q {
      case Write(data) =>
        ghost var a := f.Now();
        var r;
        ghost var es;
        r, es := f.Write(data);
        WentPart(f, a, es);
        part := Direct(es);
      case AWrite(data) =>
        part := ServeAWrite(f, data);
      case AWriteBatch(chunks) =>
        part := ServeAWriteBatch(f, chunks);
      case Close =>
        f.Close();
      case _ =>
        ServeReading(f, q);
    }
  }

  /** Any session: it can be carried through as long as ids last, and what its calls account for as written
      is one part for each request, in order. */
  method Play(f: NativeFileIO, script: seq<Request>) returns (ghost parts: seq<seq<byte>>)
    requires f.Valid() && f.Totalled() && f.ring.counter.issued + AllIds(script) < U64
    modifies f, f.ring, f.ring.counter
    ensures f.Valid() && f.Totalled() && Parts(script, parts)
    ensures f.accepted == old(f.accepted) + Joined(parts)
  {
    hide NativeFileIO.Valid, PartOf, Joined, NativeFileIO.Totalled;
    parts := [];
    NoParts();
    assert script[0..] == script && f.accepted + [] == f.accepted;
    for i := 0 to |script|
      invariant f.Valid() && f.Totalled() && Parts(script[..i], parts)
      invariant f.ring.counter.issued + AllIds(script[i..]) < U64
      invariant f.accepted == old(f.accepted) + Joined(parts)
    {
      assert script[i..][0] == script[i] && script[i..][1..] == script[i + 1..];
      ghost var part := Serve(f, script[i]);
      OneMorePart(script, i, parts, part);
      assert old(f.accepted) + Joined(parts) + part == old(f.accepted) + (Joined(parts) + part);
      parts := parts + [part];
    }
    assert script[..|script|] == script;
  }

  lemma NoParts()
    ensures Joined([]) == []
  {
  }

  lemma OneMorePart(script: seq<Request>, i: nat, parts: seq<seq<byte>>, part: seq<byte>)
    requires i < |script| && Parts(script[..i], parts) && PartOf(script[i], part)
    ensures Parts(script[..i + 1], parts + [part])
    ensures Joined(parts + [part]) == Joined(parts) + part
  {
    hide PartOf;
    assert (parts + [part])[..|parts|] == parts;
    assert forall j | 0 <= j < i :: script[..i][j] == script[..i + 1][j];
  }

  /** On a stream just opened for appending, any session leaves the file as it was found followed by what
      its calls account for, each in its turn, by whichever route, whatever is sought or read in between;
      and if no writing call returned an error it has grown by the counts returned. All this as long as the
      ring's failed calls have written nothing and its batches were run in order. */
  method PlayAppending(f: NativeFileIO, script: seq<Request>) returns (ghost parts: seq<seq<byte>>)
    requires f.Valid() && f.Totalled() && f.accepted == [] && f.origin.append
    requires f.ring.counter.issued + AllIds(script) < U64
    modifies f, f.ring, f.ring.counter
    ensures f.Valid() && Parts(script, parts)
    ensures Orderly(f.ring.hist.log, f.ring.calls, f.fd) ==>
              && f.ring.file.bytes == f.origin.bytes + Joined(parts)
              && (!f.erred ==> |f.ring.file.bytes| == |f.origin.bytes| + f.returned)
  {
    parts := Play(f, script);
    assert [] + Joined(parts) == Joined(parts);
    hide Orderly, NativeFileIO.Valid, Joined;
    if Orderly(f.ring.hist.log, f.ring.calls, f.fd) {
      f.AcceptedContents();
    }
  }
}
