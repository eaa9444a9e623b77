/** Batches of reads: what each route returns, and when the two routes return the same. */
module BatchReads {
  import opened IoTypes
  import opened RingProtocol
  import opened FileModel
  import opened Calls
  import opened RanDuring
  import opened BatchTheorems

  // --- Reads one after the other ---

  /** Every specification gives its own offset. */
  predicate Positioned(specs: seq<(nat, nat)>) {
    forall i | 0 <= i < |specs| :: specs[i].0 != CURRENT
  }

  /** Every offset given is one that a seek or a positioned read takes. */
  predicate Seekable(specs: seq<(nat, nat)>) {
    forall i | 0 <= i < |specs| :: specs[i].0 == CURRENT || specs[i].0 <= I64_MAX
  }

  /** Every specification leaves the offset to the descriptor's position. */
  predicate SizesOnly(specs: seq<(nat, nat)>) {
    forall i | 0 <= i < |specs| :: specs[i].0 == CURRENT
  }

  /** The ring reads at an offset without moving the position; the path route seeks there first. */
  datatype Route = ByRing | ByPath

  /** Where the descriptor is after these reads, having started at `from`. */
  function PositionAfter(route: Route, from: nat, specs: seq<(nat, nat)>, buffers: seq<seq<byte>>): nat
    requires |buffers| == |specs|
  {
    if specs == [] then from
    else
      var n := |specs| - 1;
      if specs[n].0 != CURRENT && route.ByPath? then specs[n].0 + |buffers[n]|
      else
        PositionAfter(route, from, specs[..n], buffers[..n]) + (if specs[n].0 == CURRENT then |buffers[n]| else 0)
  }

  /** Where the last of these specifications reads. */
  function LastAt(route: Route, from: nat, specs: seq<(nat, nat)>, before: seq<seq<byte>>): nat
    requires |specs| == |before| + 1
  {
    var n := |before|;
    if specs[n].0 == CURRENT then PositionAfter(route, from, specs[..n], before) else specs[n].0
  }

  /** Possibly short reads in turn, each where its specification or the ones before it put it; asked for
      something, they give nothing only at the end of the file. */
  predicate ReadInTurn(route: Route, bytes: seq<byte>, from: nat, specs: seq<(nat, nat)>, buffers: seq<seq<byte>>)
    requires |buffers| == |specs|
  {
    if specs == [] then true
    else
      var n := |specs| - 1;
      && ReadInTurn(route, bytes, from, specs[..n], buffers[..n])
      && buffers[n] == Slice(bytes, LastAt(route, from, specs, buffers[..n]), |buffers[n]|)
      && |buffers[n]| <= specs[n].1
      && (buffers[n] == [] && specs[n].1 % U32 > 0 ==> LastAt(route, from, specs, buffers[..n]) >= |bytes|)
  }

  /** Each of these reads got as much as the file had where it read, up to its size. */
  predicate FullInTurn(route: Route, bytes: seq<byte>, from: nat, specs: seq<(nat, nat)>, buffers: seq<seq<byte>>)
    requires |buffers| == |specs|
  {
    if specs == [] then true
    else
      var n := |specs| - 1;
      && FullInTurn(route, bytes, from, specs[..n], buffers[..n])
      && |buffers[n]| == |Slice(bytes, LastAt(route, from, specs, buffers[..n]), specs[n].1)|
  }

  /** What reading in turn returns when every read is full. */
  function SequentialReads(route: Route, bytes: seq<byte>, from: nat, specs: seq<(nat, nat)>): (r: seq<seq<byte>>)
    ensures |r| == |specs|
  {
    if specs == [] then []
    else
      var before := SequentialReads(route, bytes, from, specs[..|specs| - 1]);
      before + [Slice(bytes, LastAt(route, from, specs, before), specs[|specs| - 1].1)]
  }

  lemma FullPiece(bytes: seq<byte>, at: nat, piece: seq<byte>, size: nat)
    requires piece == Slice(bytes, at, |piece|)
    ensures |piece| == |Slice(bytes, at, size)| <==> piece == Slice(bytes, at, size)
  {
  }

  /** Reads in turn that are all full return exactly that, and only they do. */
  lemma {:induction false} FullReadsAreSequential(route: Route, bytes: seq<byte>, from: nat, specs: seq<(nat, nat)>,
                                                  buffers: seq<seq<byte>>)
    requires |buffers| == |specs| && ReadInTurn(route, bytes, from, specs, buffers)
    ensures FullInTurn(route, bytes, from, specs, buffers) <==> buffers == SequentialReads(route, bytes, from, specs)
  {
    hide LastAt, Slice;
    if specs != [] {
      var n := |specs| - 1;
      var at := LastAt(route, from, specs, buffers[..n]);
      FullReadsAreSequential(route, bytes, from, specs[..n], buffers[..n]);
      FullPiece(bytes, at, buffers[n], specs[n].1);
      assert buffers == buffers[..n] + [buffers[n]];
    }
  }

  /** Full reads at explicit offsets return the slice at each offset, by either route, wherever they start. */
  lemma {:induction false} ExplicitReads(route: Route, bytes: seq<byte>, from: nat, specs: seq<(nat, nat)>)
    requires Positioned(specs)
    ensures var r := SequentialReads(route, bytes, from, specs);
            forall i | 0 <= i < |specs| :: r[i] == Slice(bytes, specs[i].0, specs[i].1)
  {
    hide Slice;
    if specs != [] {
      ExplicitReads(route, bytes, from, specs[..|specs| - 1]);
    }
  }

  /** A buffer whose specification gives an offset holds bytes from there, and is empty, if asked to be
      filled, only beyond the end; none is longer than asked for. */
  ghost predicate ReadInPlace(bytes: seq<byte>, specs: seq<(nat, nat)>, buffers: seq<seq<byte>>) {
    && |buffers| == |specs|
    && forall i | 0 <= i < |specs| ::
         && |buffers[i]| <= specs[i].1
         && (specs[i].0 != CURRENT ==>
               && buffers[i] == Slice(bytes, specs[i].0, |buffers[i]|)
               && (buffers[i] == [] && specs[i].1 % U32 > 0 ==> specs[i].0 >= |bytes|))
  }

  /** As much as the file has at each offset, up to the size asked for. */
  ghost predicate FullReads(bytes: seq<byte>, specs: seq<(nat, nat)>, buffers: seq<seq<byte>>) {
    |buffers| == |specs| && forall i | 0 <= i < |specs| :: |buffers[i]| == |Slice(bytes, specs[i].0, specs[i].1)|
  }

  /** Positioned reads that are full, in whatever order they ran, are those of either route in turn. */
  lemma FullPositionedReads(route: Route, bytes: seq<byte>, from: nat, specs: seq<(nat, nat)>, buffers: seq<seq<byte>>)
    requires Positioned(specs) && ReadInPlace(bytes, specs, buffers) && FullReads(bytes, specs, buffers)
    ensures buffers == SequentialReads(route, bytes, from, specs)
  {
    ExplicitReads(route, bytes, from, specs);
    hide SequentialReads;
    forall i | 0 <= i < |specs|
      ensures buffers[i] == Slice(bytes, specs[i].0, specs[i].1)
    {
      FullPiece(bytes, specs[i].0, buffers[i], specs[i].1);
    }
    hide Slice;
  }

  lemma {:induction false} InTurnIsInPlace(route: Route, bytes: seq<byte>, from: nat, specs: seq<(nat, nat)>,
                                           buffers: seq<seq<byte>>)
    requires |buffers| == |specs| && ReadInTurn(route, bytes, from, specs, buffers)
    ensures ReadInPlace(bytes, specs, buffers)
  {
    hide PositionAfter;
    if specs != [] {
      var n := |specs| - 1;
      InTurnIsInPlace(route, bytes, from, specs[..n], buffers[..n]);
      forall i | 0 <= i < |specs|
        ensures |buffers[i]| <= specs[i].1
        ensures specs[i].0 != CURRENT ==>
                  && buffers[i] == Slice(bytes, specs[i].0, |buffers[i]|)
                  && (buffers[i] == [] && specs[i].1 % U32 > 0 ==> specs[i].0 >= |bytes|)
      {
        assert i < n ==> specs[..n][i] == specs[i] && buffers[..n][i] == buffers[i];
      }
    }
  }

  /** Size-only reads in turn join up to the bytes from where they started. */
  lemma {:induction false} InTurnJoins(route: Route, bytes: seq<byte>, from: nat, specs: seq<(nat, nat)>,
                                       buffers: seq<seq<byte>>)
    requires |buffers| == |specs| && ReadInTurn(route, bytes, from, specs, buffers) && SizesOnly(specs)
    ensures Joined(buffers) == Slice(bytes, from, |Joined(buffers)|)
    ensures PositionAfter(route, from, specs, buffers) == from + |Joined(buffers)|
  {
    hide Slice;
    if specs == [] {
      NoSlice(bytes, from);
    } else {
      var n := |specs| - 1;
      var before := Joined(buffers[..n]);
      InTurnJoins(route, bytes, from, specs[..n], buffers[..n]);
      assert LastAt(route, from, specs, buffers[..n]) == from + |before|;
      SliceJoins(bytes, from, |before|, |buffers[n]|);
      assert Joined(buffers) == before + buffers[n];
    }
  }

  // --- When the two routes of a size-only batch agree ---

  function TotalSize(specs: seq<(nat, nat)>): nat {
    if specs == [] then 0 else TotalSize(specs[..|specs| - 1]) + specs[|specs| - 1].1
  }

  lemma SliceGrows(bytes: seq<byte>, at: nat, m: nat, n: nat)
    ensures Slice(bytes, at, m + n) == Slice(bytes, at, m) + Slice(bytes, at + |Slice(bytes, at, m)|, n)
  {
  }

  lemma {:induction false} SequentialJoins(route: Route, bytes: seq<byte>, from: nat, specs: seq<(nat, nat)>)
    requires SizesOnly(specs)
    ensures var r := SequentialReads(route, bytes, from, specs);
            && Joined(r) == Slice(bytes, from, TotalSize(specs))
            && PositionAfter(route, from, specs, r) == from + |Joined(r)|
  {
    hide Slice;
    if specs == [] {
      NoSlice(bytes, from);
    } else {
      var n := |specs| - 1;
      SequentialJoins(route, bytes, from, specs[..n]);
      SliceGrows(bytes, from, TotalSize(specs[..n]), specs[n].1);
      var r := SequentialReads(route, bytes, from, specs);
      assert r[..n] == SequentialReads(route, bytes, from, specs[..n]);
    }
  }

  lemma SliceLength(bytes: seq<byte>, at: nat, m: nat, n: nat)
    ensures |Slice(bytes, at, m)| == Min(m, |Slice(bytes, at, m + n)|)
  {
  }

  lemma SlicePrefix(bytes: seq<byte>, p: nat, q: nat, m: nat, n: nat)
    requires Slice(bytes, p, m + n) == Slice(bytes, q, m + n)
    ensures Slice(bytes, p, m) == Slice(bytes, q, m)
    ensures Slice(bytes, p + |Slice(bytes, p, m)|, n) == Slice(bytes, q + |Slice(bytes, q, m)|, n)
  {
    hide Slice;
    SliceGrows(bytes, p, m, n);
    SliceGrows(bytes, q, m, n);
    SliceLength(bytes, p, m, n);
    SliceLength(bytes, q, m, n);
    var w := Slice(bytes, p, m + n);
    var k := Min(m, |w|);
    assert Slice(bytes, p, m) == w[..k] && Slice(bytes, q, m) == w[..k];
    assert Slice(bytes, p + k, n) == w[k..] && Slice(bytes, q + k, n) == w[k..];
  }

  lemma {:induction false} SameBytesSameReads(bytes: seq<byte>, r: Route, p: nat, t: Route, q: nat,
                                              specs: seq<(nat, nat)>)
    requires SizesOnly(specs) && Slice(bytes, p, TotalSize(specs)) == Slice(bytes, q, TotalSize(specs))
    ensures SequentialReads(r, bytes, p, specs) == SequentialReads(t, bytes, q, specs)
  {
    hide Slice;
    if specs != [] {
      var n := |specs| - 1;
      SlicePrefix(bytes, p, q, TotalSize(specs[..n]), specs[n].1);
      SameBytesSameReads(bytes, r, p, t, q, specs[..n]);
      SequentialJoins(r, bytes, p, specs[..n]);
      SequentialJoins(t, bytes, q, specs[..n]);
    }
  }

  lemma SequentialRoutesAgreeIff(bytes: seq<byte>, pos: nat, specs: seq<(nat, nat)>)
    requires SizesOnly(specs)
    ensures SequentialReads(ByRing, bytes, pos, specs) == SequentialReads(ByPath, bytes, 0, specs)
            <==> Slice(bytes, pos, TotalSize(specs)) == Slice(bytes, 0, TotalSize(specs))
  {
    SequentialJoins(ByRing, bytes, pos, specs);
    SequentialJoins(ByPath, bytes, 0, specs);
    hide Slice, SequentialReads;
    if Slice(bytes, pos, TotalSize(specs)) == Slice(bytes, 0, TotalSize(specs)) {
      SameBytesSameReads(bytes, ByRing, pos, ByPath, 0, specs);
    }
  }

  /** A size-only batch reads on from the stream's position by the ring and from the start of the file
      by the path. With full reads, run in order, the two return the same exactly when the file repeats
      at the position what it starts with, over the total size asked for. */
  lemma SizeOnlyRoutesAgreeIff(bytes: seq<byte>, pos: nat, specs: seq<(nat, nat)>, byRing: seq<seq<byte>>,
                               byPath: seq<seq<byte>>)
    requires SizesOnly(specs) && |byRing| == |byPath| == |specs|
    requires ReadInTurn(ByRing, bytes, pos, specs, byRing) && FullInTurn(ByRing, bytes, pos, specs, byRing)
    requires ReadInTurn(ByPath, bytes, 0, specs, byPath) && FullInTurn(ByPath, bytes, 0, specs, byPath)
    ensures byRing == byPath <==> Slice(bytes, pos, TotalSize(specs)) == Slice(bytes, 0, TotalSize(specs))
  {
    hide Slice, ReadInTurn, FullInTurn, SequentialReads;
    FullReadsAreSequential(ByRing, bytes, pos, specs, byRing);
    FullReadsAreSequential(ByPath, bytes, 0, specs, byPath);
    SequentialRoutesAgreeIff(bytes, pos, specs);
  }

  /** One byte read from the two-byte file [1, 2] with the stream at its second byte. */
  lemma SizeOnlyRoutesDisagree()
    ensures var bytes: seq<byte>, specs: seq<(nat, nat)> := [1, 2], [(CURRENT, 1)];
            && ReadInTurn(ByRing, bytes, 1, specs, [[2]]) && FullInTurn(ByRing, bytes, 1, specs, [[2]])
            && ReadInTurn(ByPath, bytes, 0, specs, [[1]]) && FullInTurn(ByPath, bytes, 0, specs, [[1]])
  {
    var bytes: seq<byte>, specs: seq<(nat, nat)> := [1, 2], [(CURRENT, 1)];
    assert specs[..0] == [];
    assert Slice(bytes, 1, 1) == [2] && Slice(bytes, 0, 1) == [1];
  }

  // --- Lists that mix offsets with reads at the position ---

  /** What the size-only reads of a list ask for in all. */
  function CurrentSize(specs: seq<(nat, nat)>): nat {
    if specs == [] then 0
    else
      var n := |specs| - 1;
      CurrentSize(specs[..n]) + (if specs[n].0 == CURRENT then specs[n].1 else 0)
  }

  /** Where the path route last sought to in these reads; at first, the start of the file. */
  function LastSeek(specs: seq<(nat, nat)>): nat {
    if specs == [] then 0
    else
      var n := |specs| - 1;
      if specs[n].0 == CURRENT then LastSeek(specs[..n]) else specs[n].0
  }

  /** What the reads from there on ask for in all. */
  function SizeSinceSeek(specs: seq<(nat, nat)>): nat {
    if specs == [] then 0
    else
      var n := |specs| - 1;
      (if specs[n].0 == CURRENT then SizeSinceSeek(specs[..n]) else 0) + specs[n].1
  }

  /** Where the next size-only read of the ring starts, after these reads in full. */
  function RingStart(bytes: seq<byte>, pos: nat, specs: seq<(nat, nat)>): nat {
    pos + |Slice(bytes, pos, CurrentSize(specs))|
  }

  /** Where the next size-only read of the path starts, after these reads in full. */
  function PathStart(bytes: seq<byte>, specs: seq<(nat, nat)>): nat {
    LastSeek(specs) + |Slice(bytes, LastSeek(specs), SizeSinceSeek(specs))|
  }

  lemma SliceGrowsLength(bytes: seq<byte>, at: nat, m: nat, n: nat)
    ensures |Slice(bytes, at, m + n)| == |Slice(bytes, at, m)| + |Slice(bytes, at + |Slice(bytes, at, m)|, n)|
  {
    SliceGrows(bytes, at, m, n);
  }

  lemma {:induction false} RingStarts(bytes: seq<byte>, pos: nat, specs: seq<(nat, nat)>)
    ensures PositionAfter(ByRing, pos, specs, SequentialReads(ByRing, bytes, pos, specs))
            == RingStart(bytes, pos, specs)
  {
    hide Slice;
    if specs == [] {
      NoSlice(bytes, pos);
    } else {
      var n := |specs| - 1;
      var r := SequentialReads(ByRing, bytes, pos, specs);
      RingStarts(bytes, pos, specs[..n]);
      assert r[..n] == SequentialReads(ByRing, bytes, pos, specs[..n]);
      SliceGrowsLength(bytes, pos, CurrentSize(specs[..n]), specs[n].1);
    }
  }

  lemma {:induction false} PathStarts(bytes: seq<byte>, specs: seq<(nat, nat)>)
    ensures PositionAfter(ByPath, 0, specs, SequentialReads(ByPath, bytes, 0, specs)) == PathStart(bytes, specs)
  {
    hide Slice;
    NoSlice(bytes, 0);
    if specs != [] {
      var n := |specs| - 1;
      var r := SequentialReads(ByPath, bytes, 0, specs);
      PathStarts(bytes, specs[..n]);
      assert r[..n] == SequentialReads(ByPath, bytes, 0, specs[..n]);
      if specs[n].0 == CURRENT {
        SliceGrowsLength(bytes, LastSeek(specs[..n]), SizeSinceSeek(specs[..n]), specs[n].1);
      }
    }
  }

  /** At every size-only read of the list, the file holds the same, over its size, where the two routes
      come to it; where that is follows from the list alone. */
  predicate SameAtStarts(bytes: seq<byte>, pos: nat, specs: seq<(nat, nat)>) {
    forall i | 0 <= i < |specs| && specs[i].0 == CURRENT ::
      Slice(bytes, RingStart(bytes, pos, specs[..i]), specs[i].1)
      == Slice(bytes, PathStart(bytes, specs[..i]), specs[i].1)
  }

  lemma SameAtStartsOneMore(bytes: seq<byte>, pos: nat, specs: seq<(nat, nat)>)
    requires specs != []
    ensures var n := |specs| - 1;
            SameAtStarts(bytes, pos, specs)
            <==> SameAtStarts(bytes, pos, specs[..n])
                 && (specs[n].0 == CURRENT ==>
                       Slice(bytes, RingStart(bytes, pos, specs[..n]), specs[n].1)
                       == Slice(bytes, PathStart(bytes, specs[..n]), specs[n].1))
  {
    hide Slice, RingStart, PathStart;
    var n := |specs| - 1;
    assert forall i | 0 <= i < n :: specs[..n][..i] == specs[..i] && specs[..n][i] == specs[i];
  }

  lemma {:induction false} SequentialMixedAgreeIff(bytes: seq<byte>, pos: nat, specs: seq<(nat, nat)>)
    ensures SequentialReads(ByRing, bytes, pos, specs) == SequentialReads(ByPath, bytes, 0, specs)
            <==> SameAtStarts(bytes, pos, specs)
  {
    hide Slice, RingStart, PathStart;
    if specs != [] {
      var n := |specs| - 1;
      SequentialMixedAgreeIff(bytes, pos, specs[..n]);
      SameAtStartsOneMore(bytes, pos, specs);
      RingStarts(bytes, pos, specs[..n]);
      PathStarts(bytes, specs[..n]);
      SameLast(SequentialReads(ByRing, bytes, pos, specs), SequentialReads(ByPath, bytes, 0, specs));
      hide SameAtStarts;
    }
  }

  lemma SameLast(a: seq<seq<byte>>, b: seq<seq<byte>>)
    requires |a| == |b| > 0
    ensures a == b <==> a[..|a| - 1] == b[..|b| - 1] && a[|a| - 1] == b[|b| - 1]
  {
    assert a == a[..|a| - 1] + [a[|a| - 1]] && b == b[..|b| - 1] + [b[|b| - 1]];
  }

  /** Full answers of the two routes, in order, to any list whatever: they are equal exactly when at every
      size-only read of it the file holds the same at the two places the routes come to it. */
  lemma MixedRoutesAgreeIff(bytes: seq<byte>, pos: nat, specs: seq<(nat, nat)>, byRing: seq<seq<byte>>,
                            byPath: seq<seq<byte>>)
    requires |byRing| == |byPath| == |specs|
    requires ReadInTurn(ByRing, bytes, pos, specs, byRing) && FullInTurn(ByRing, bytes, pos, specs, byRing)
    requires ReadInTurn(ByPath, bytes, 0, specs, byPath) && FullInTurn(ByPath, bytes, 0, specs, byPath)
    ensures byRing == byPath <==> SameAtStarts(bytes, pos, specs)
  {
    hide Slice, ReadInTurn, FullInTurn, SequentialReads, SameAtStarts;
    FullReadsAreSequential(ByRing, bytes, pos, specs, byRing);
    FullReadsAreSequential(ByPath, bytes, 0, specs, byPath);
    SequentialMixedAgreeIff(bytes, pos, specs);
  }

  /** A byte at offset 2 and then one without, of the file [1, 2, 3, 4] with the stream at its start: the
      path has sought, the ring has not. */
  lemma MixedRoutesDisagree()
    ensures var bytes: seq<byte>, specs: seq<(nat, nat)> := [1, 2, 3, 4], [(2, 1), (CURRENT, 1)];
            && SequentialReads(ByRing, bytes, 0, specs) == [[3], [1]]
            && SequentialReads(ByPath, bytes, 0, specs) == [[3], [4]]
  {
    var bytes: seq<byte>, specs: seq<(nat, nat)> := [1, 2, 3, 4], [(2, 1), (CURRENT, 1)];
    assert specs[..1] == [(2, 1)] && specs[..1][..0] == [];
    assert Slice(bytes, 2, 1) == [3] && Slice(bytes, 0, 1) == [1] && Slice(bytes, 3, 1) == [4];
    forall route: Route
      ensures SequentialReads(route, bytes, 0, [(2, 1)]) == [[3]]
    {
      assert SequentialReads(route, bytes, 0, specs[..1]) == [Slice(bytes, 2, 1)];
    }
    assert [[3]][..0] == [];
  }

  // --- A batch on the ring ---

  /** The buffers filled from the descriptor's position; empty in place of the others. */
  function FromPosition(specs: seq<(nat, nat)>, buffers: seq<seq<byte>>): seq<seq<byte>>
    requires |buffers| == |specs|
  {
    seq(|specs|, i requires 0 <= i < |specs| => if specs[i].0 == CURRENT then buffers[i] else [])
  }

  /** What `d` read at the position is its own buffer, and it wrote nothing. */
  predicate Fetches(fd: int, d: Done, start: Id, pieces: seq<seq<byte>>) {
    && start <= d.entry.id < start + |pieces|
    && ReturnedBy(fd, d) == pieces[d.entry.id - start] && AcceptedBy(fd, d) == []
  }

  lemma ReturnedPiece(fd: int, h: History, d: Done, start: Id, buffers: seq<seq<byte>>, specs: seq<(nat, nat)>,
                      results: seq<int>)
    requires |buffers| == |specs| && OfCall(d, start, ReadOps(fd, specs), results)
    requires Filled(h, start, buffers, |specs|) && d.entry.id in h.posted && h.posted[d.entry.id] == d
    ensures Fetches(fd, d, start, FromPosition(specs, buffers)) && d.data == buffers[d.entry.id - start]
  {
    assert Holds(h, start + (d.entry.id - start), buffers[d.entry.id - start]);
  }

  lemma ReturnedLast(fd: int, log: seq<Done>)
    requires log != []
    ensures Returned(fd, log) == Returned(fd, log[..|log| - 1]) + ReturnedBy(fd, log[|log| - 1])
  {
  }

  lemma OneMoreFetches(fd: int, log: seq<Done>, start: Id, pieces: seq<seq<byte>>)
    requires log != [] && Fetches(fd, log[|log| - 1], start, pieces)
    requires var order := RunOrder(log[..|log| - 1], start);
             Within(order, |pieces|) && Returned(fd, log[..|log| - 1]) == Gather(pieces, order)
    ensures var order := RunOrder(log, start);
            Within(order, |pieces|) && Returned(fd, log) == Gather(pieces, order)
  {
    var n := |log| - 1;
    var x := log[n].entry.id - start;
    assert 0 <= x < |pieces| && ReturnedBy(fd, log[n]) == pieces[x];
    ReturnedLast(fd, log);
    hide Returned, ReturnedBy, Fetches, RunOrder, Within, Gather;
    RunOrderLast(log, start);
    GatherOneMore(pieces, RunOrder(log[..n], start), x);
  }

  lemma {:induction false} ReturnedIsGathered(fd: int, log: seq<Done>, start: Id, pieces: seq<seq<byte>>)
    requires forall k | 0 <= k < |log| :: Fetches(fd, log[k], start, pieces)
    ensures Within(RunOrder(log, start), |pieces|)
    ensures Returned(fd, log) == Gather(pieces, RunOrder(log, start))
  {
    if log == [] {
      NothingGathered(pieces, start);
    } else {
      hide Fetches, Returned, RunOrder, Within, Gather;
      ReturnedIsGathered(fd, log[..|log| - 1], start, pieces);
      OneMoreFetches(fd, log, start, pieces);
    }
  }

  lemma {:induction false} ReadsAcceptNothing(fd: int, log: seq<Done>, start: Id, pieces: seq<seq<byte>>)
    requires forall k | 0 <= k < |log| :: Fetches(fd, log[k], start, pieces)
    ensures Accepted(fd, log) == []
  {
    if log != [] {
      ReadsAcceptNothing(fd, log[..|log| - 1], start, pieces);
      assert Fetches(fd, log[|log| - 1], start, pieces);
      hide AcceptedBy;
    }
  }

  /** The buffers a ring batch fills: those with an offset in place, the others tiling the file from the
      position on, in the order `perm` the kernel ran them; if one of those is empty though asked to be
      filled, up to the end of the file. */
  ghost predicate Tiled(f: File, g: File, specs: seq<(nat, nat)>, buffers: seq<seq<byte>>, perm: seq<int>) {
    && ReadInPlace(f.bytes, specs, buffers) && Permutes(perm, |specs|)
    && var pieces := FromPosition(specs, buffers);
    && g == f.(pos := f.pos + Total(pieces))
    && Gather(pieces, perm) == Slice(f.bytes, f.pos, Total(pieces))
    && forall i | 0 <= i < |specs| && specs[i].0 == CURRENT && buffers[i] == [] && specs[i].1 % U32 > 0 ::
         f.pos + Total(pieces) >= |f.bytes|
  }

  /** A finished batch of reads on an idle ring, with or without offsets, in any order of execution: the
      file is not changed, buffers with an offset hold the bytes there, and the others, in the order the
      kernel ran them, are consecutive and cover exactly the bytes between the position before and after. */
  lemma {:induction false} ReadBatchTiles(s: State, t: State, f: File, g: File, start: Id, specs: seq<(nat, nat)>,
                                          results: seq<int>, buffers: seq<seq<byte>>) returns (perm: seq<int>)
    requires Inv(s) && Inv(t) && Idle(s, f.fd) && CallDone(s, t, start, ReadOps(f.fd, specs), results)
    requires Advances(f, s.hist.log, g, t.hist.log)
    requires |buffers| == |specs| && Filled(t.hist, start, buffers, |specs|)
    requires forall i | 0 <= i < |results| :: results[i] >= 0
    ensures perm == RunOrder(Own(Ran(s, t), start, |specs|), start)
    ensures Tiled(f, g, specs, buffers, perm) && Accepted(f.fd, Ran(s, t)) == []
  {
    hide Inv, Called, CanRunAll, RunAll, Accepted, Returned, Gather, Total, Idle, Filled, Slice, ReadInPlace;
    CallRunsOnce(s, t, start, ReadOps(f.fd, specs), results);
    CallOthersHarmless(s, t, start, ReadOps(f.fd, specs), |specs|, results, f.fd);
    OwnRuns(f, Ran(s, t), start, |specs|);
    var own, pieces := Own(Ran(s, t), start, |specs|), FromPosition(specs, buffers);
    perm := RunOrder(own, start);
    forall k | 0 <= k < |own|
      ensures Fetches(f.fd, own[k], start, pieces)
    {
      assert own[k] in own;
      ReturnedPiece(f.fd, t.hist, own[k], start, buffers, specs, results);
    }
    ReturnedIsGathered(f.fd, own, start, pieces);
    ReadsAcceptNothing(f.fd, own, start, pieces);
    LogTiles(f, own);
    GatherLength(pieces, perm);
    OffsetsInPlace(s, t, f, g, start, specs, results, buffers);
    EmptiesAtEnd(s, t, f, start, specs, results, buffers);
  }

  lemma EmptiesAtEnd(s: State, t: State, f: File, start: Id, specs: seq<(nat, nat)>, results: seq<int>,
                     buffers: seq<seq<byte>>)
    requires Inv(s) && Inv(t) && CallDone(s, t, start, ReadOps(f.fd, specs), results) && s.hist.log <= t.hist.log
    requires |buffers| == |specs| && Filled(t.hist, start, buffers, |specs|)
    requires forall i | 0 <= i < |results| :: results[i] >= 0
    requires var own := Own(Ran(s, t), start, |specs|); CanRunAll(f, own) && Accepted(f.fd, own) == []
    ensures forall i | 0 <= i < |specs| && specs[i].0 == CURRENT && buffers[i] == [] && specs[i].1 % U32 > 0 ::
              f.pos + |Returned(f.fd, Own(Ran(s, t), start, |specs|))| >= |f.bytes|
  {
    hide Inv, LogFacts, Honest, Called, CanRunAll, RunAll, Accepted, Returned, Filled, ReadOps;
    InvLogFacts(s);
    InvLogFacts(t);
    forall i | 0 <= i < |specs| && specs[i].0 == CURRENT && buffers[i] == [] && specs[i].1 % U32 > 0
      ensures f.pos + |Returned(f.fd, Own(Ran(s, t), start, |specs|))| >= |f.bytes|
    {
      ReadOpsLength(f.fd, specs);
      CallRan(s, t, start, ReadOps(f.fd, specs), results, i);
      CallGrowsLog(s, t, start, ReadOps(f.fd, specs), results);
      OwnHas(Ran(s, t), start, |specs|, t.hist.posted[start + i]);
      EmptyBuffer(f, t.hist, Own(Ran(s, t), start, |specs|), start, specs, results, buffers, i);
    }
  }

  lemma ReadOpsLength(fd: int, specs: seq<(nat, nat)>)
    ensures |ReadOps(fd, specs)| == |specs|
  {
  }

  lemma EmptyBuffer(f: File, h: History, own: seq<Done>, start: Id, specs: seq<(nat, nat)>, results: seq<int>,
                    buffers: seq<seq<byte>>, i: nat)
    requires CanRunAll(f, own) && Accepted(f.fd, own) == [] && i < |specs| == |buffers|
    requires specs[i].0 == CURRENT && buffers[i] == [] && specs[i].1 % U32 > 0
    requires Filled(h, start, buffers, |specs|) && start + i in h.posted && h.posted[start + i] in own
    requires h.posted[start + i].entry == Entry(start + i, ReadOps(f.fd, specs)[i])
    requires WellFormed(h.posted[start + i]) && h.posted[start + i].res >= 0
    ensures f.pos + |Returned(f.fd, own)| >= |f.bytes|
  {
    assert Holds(h, start + i, buffers[i]);
    var k :| 0 <= k < |own| && own[k] == h.posted[start + i];
    EmptyReadAtEnd(f, own, k);
  }

  lemma OffsetsInPlace(s: State, t: State, f: File, g: File, start: Id, specs: seq<(nat, nat)>,
                       results: seq<int>, buffers: seq<seq<byte>>)
    requires Inv(s) && Inv(t) && CallDone(s, t, start, ReadOps(f.fd, specs), results)
    requires Advances(f, s.hist.log, g, t.hist.log) && Accepted(f.fd, Ran(s, t)) == []
    requires |buffers| == |specs| && Filled(t.hist, start, buffers, |specs|)
    requires |results| == |specs| && forall i | 0 <= i < |results| :: results[i] >= 0
    ensures ReadInPlace(f.bytes, specs, buffers)
  {
    hide Inv, LogFacts, Honest, Called, CanRunAll, RunAll, Accepted;
    InvLogFacts(s);
    InvLogFacts(t);
    forall i | 0 <= i < |specs|
      ensures |buffers[i]| <= specs[i].1
      ensures specs[i].0 != CURRENT ==>
                && buffers[i] == Slice(f.bytes, specs[i].0, |buffers[i]|)
                && (buffers[i] == [] && specs[i].1 % U32 > 0 ==> specs[i].0 >= |f.bytes|)
    {
      CallRan(s, t, start, ReadOps(f.fd, specs), results, i);
      assert Holds(t.hist, start + i, buffers[i]);
      if specs[i].0 != CURRENT {
        LogReads(f, Ran(s, t), t.hist.posted[start + i]);
        if buffers[i] == [] && specs[i].1 % U32 > 0 {
          NothingLeft(f.bytes, specs[i].0, specs[i].1 % U32);
        }
      }
    }
  }

  /** `log` holds the reads of a batch in order, with what they put in the buffers. */
  ghost predicate ReadsInOrder(log: seq<Done>, fd: int, start: Id, specs: seq<(nat, nat)>, buffers: seq<seq<byte>>) {
    && |log| == |specs| == |buffers|
    && forall k | 0 <= k < |log| ::
         && log[k].entry == Entry(start + k, ReadOp(fd, specs[k].0, specs[k].1))
         && log[k].res >= 0 && log[k].data == buffers[k]
  }

  lemma RunsRead(g: File, d: Done, offset: nat, size: nat)
    requires CanRun(g, d) && d.entry.op == ReadOp(g.fd, offset, size) && d.res >= 0
    ensures d.data == Slice(g.bytes, ReadAt(g, offset), |d.data|) && |d.data| <= size
    ensures d.data == [] && size % U32 > 0 ==> ReadAt(g, offset) >= |g.bytes|
    ensures Run(g, d) == if offset == CURRENT then g.(pos := g.pos + |d.data|) else g
  {
  }

  lemma {:induction false} InOrderReadsInTurn(f: File, log: seq<Done>, start: Id, specs: seq<(nat, nat)>,
                                              buffers: seq<seq<byte>>)
    requires CanRunAll(f, log) && ReadsInOrder(log, f.fd, start, specs, buffers)
    ensures ReadInTurn(ByRing, f.bytes, f.pos, specs, buffers)
    ensures RunAll(f, log) == f.(pos := PositionAfter(ByRing, f.pos, specs, buffers))
  {
    if log != [] {
      var n := |log| - 1;
      InOrderReadsInTurn(f, log[..n], start, specs[..n], buffers[..n]);
      hide CanRun, Run, Slice, ReadOp;
      RunsRead(RunAll(f, log[..n]), log[n], specs[n].0, specs[n].1);
    }
  }

  /** Run in the order it was pushed, a batch of reads on the ring reads in turn from the position on. */
  lemma {:induction false} ReadBatchInOrder(s: State, t: State, f: File, g: File, start: Id, specs: seq<(nat, nat)>,
                                            results: seq<int>, buffers: seq<seq<byte>>)
    requires Inv(s) && Inv(t) && Idle(s, f.fd) && CallDone(s, t, start, ReadOps(f.fd, specs), results)
    requires Advances(f, s.hist.log, g, t.hist.log) && InOrder(s, Ran(s, t))
    requires |buffers| == |specs| && Filled(t.hist, start, buffers, |specs|)
    requires forall i | 0 <= i < |results| :: results[i] >= 0
    ensures ReadInTurn(ByRing, f.bytes, f.pos, specs, buffers)
    ensures g == f.(pos := PositionAfter(ByRing, f.pos, specs, buffers))
  {
    hide Inv, Called, CanRunAll, RunAll, Accepted, Returned, Idle, Filled, Slice, InOrder, ReadInTurn, PositionAfter;
    var ops, own := ReadOps(f.fd, specs), Own(Ran(s, t), start, |specs|);
    CallRunsOnce(s, t, start, ops, results);
    CallRanInOrder(s, t, start, ops, results);
    CallOthersHarmless(s, t, start, ops, |specs|, results, f.fd);
    OwnRuns(f, Ran(s, t), start, |specs|);
    assert |RunOrder(own, start)| == |Iota(|specs|)| == |specs|;
    forall k | 0 <= k < |own|
      ensures own[k].entry == Entry(start + k, ReadOps(f.fd, specs)[k]) && own[k].res >= 0 && own[k].data == buffers[k]
    {
      assert own[k] in own;
      assert RunOrder(own, start)[k] == Iota(|specs|)[k];
      ReturnedPiece(f.fd, t.hist, own[k], start, buffers, specs, results);
    }
    InOrderReadsInTurn(f, own, start, specs, buffers);
  }
}
