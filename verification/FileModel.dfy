/**
 One regular file and the stream's descriptor on it, and what the operations of a ring do to them.
 Operations on other descriptors leave the file alone.
 */
module FileModel {
  import opened IoTypes
  import opened RingProtocol

  /** The file's bytes together with one open descriptor: its number, position and access. */
  datatype File = File(fd: int, bytes: seq<byte>, pos: nat, append: bool, canRead: bool, canWrite: bool)

  /** At most `n` bytes from offset `at`; empty beyond the end. */
  function Slice(bytes: seq<byte>, at: nat, n: nat): seq<byte> {
    if at >= |bytes| then [] else bytes[at..Min(at + n, |bytes|)]
  }

  /** What a slice holds: as many bytes as there are, up to `n`, each from its place. */
  lemma SliceHolds(bytes: seq<byte>, at: nat, n: nat)
    ensures |Slice(bytes, at, n)| == if at <= |bytes| then Min(n, |bytes| - at) else 0
    ensures forall k | 0 <= k < |Slice(bytes, at, n)| :: Slice(bytes, at, n)[k] == bytes[at + k]
  {
  }

  /** A read of at least one byte gives nothing only at the end. */
  lemma NothingLeft(bytes: seq<byte>, at: nat, n: nat)
    requires n > 0 && Slice(bytes, at, n) == []
    ensures at >= |bytes|
  {
  }

  lemma NoSlice(bytes: seq<byte>, at: nat)
    ensures Slice(bytes, at, 0) == []
  {
  }

  function Zeros(n: nat): seq<byte> {
    seq(n, _ => 0 as byte)
  }

  /** Put `data` at offset `at`, filling a gap beyond the end with zeros. */
  function Overwrite(bytes: seq<byte>, at: nat, data: seq<byte>): seq<byte> {
    if at >= |bytes| then bytes + Zeros(at - |bytes|) + data
    else bytes[..at] + data + (if at + |data| < |bytes| then bytes[at + |data|..] else [])
  }

  /** write(2) accepting exactly `data`. */
  function WriteSome(f: File, data: seq<byte>): File {
    if data == [] then f
    else
      var at := if f.append then |f.bytes| else f.pos;
      f.(bytes := Overwrite(f.bytes, at, data), pos := at + |data|)
  }

  function ReadAt(f: File, offset: nat): nat {
    if offset == CURRENT then f.pos else offset
  }

  /** `d` may be what came of its operation when it ran on `f`: an error, or a possibly short
      transfer. A read gives nothing only at the end of the file. */
  predicate CanRun(f: File, d: Done) {
    && WellFormed(d)
    && (d.res >= 0 ==>
      match d.entry.op
      case Read(fd, offset, size) =>
        fd == f.fd ==>
          && f.canRead
          && (offset == CURRENT || offset <= I64_MAX)
          && d.data == Slice(f.bytes, ReadAt(f, offset), d.res)
          && (d.res == 0 ==> Slice(f.bytes, ReadAt(f, offset), size) == [])
      case Write(fd, _) => fd == f.fd ==> f.canWrite
      case Splice(fdIn, fdOut, _) =>
        && (fdIn == f.fd ==> f.canRead && fdOut != f.fd && d.data == Slice(f.bytes, f.pos, d.res))
        && (fdOut == f.fd ==> f.canWrite && !f.append))
  }

  function Run(f: File, d: Done): File {
    if d.res < 0 then f
    else
      match d.entry.op
      case Read(fd, offset, _) => if fd == f.fd && offset == CURRENT then f.(pos := f.pos + d.res) else f
      case Write(fd, bytes) => if fd == f.fd && d.res <= |bytes| then WriteSome(f, bytes[..d.res]) else f
      case Splice(fdIn, fdOut, _) =>
        if fdIn == f.fd then f.(pos := f.pos + |d.data|) else if fdOut == f.fd then WriteSome(f, d.data) else f
  }

  predicate CanRunAll(f: File, log: seq<Done>) {
    if log == [] then true
    else
      var n := |log| - 1;
      CanRunAll(f, log[..n]) && CanRun(RunAll(f, log[..n]), log[n])
  }

  /** The operations of a log, carried out one after the other. */
  function RunAll(f: File, log: seq<Done>): File {
    if log == [] then f
    else
      var n := |log| - 1;
      Run(RunAll(f, log[..n]), log[n])
  }

  lemma {:induction false} RunAllConcat(f: File, a: seq<Done>, b: seq<Done>)
    ensures RunAll(f, a + b) == RunAll(RunAll(f, a), b)
    ensures CanRunAll(f, a + b) <==> CanRunAll(f, a) && CanRunAll(RunAll(f, a), b)
  {
    if b == [] {
      assert a + b == a;
    } else {
      var n := |b| - 1;
      RunAllConcat(f, a, b[..n]);
      assert (a + b)[..|a + b| - 1] == a + b[..n];
    }
  }

  /** The log grew from `before` to `after`, and running what was added takes `f` to `g`. */
  ghost predicate Advances(f: File, before: seq<Done>, g: File, after: seq<Done>) {
    before <= after && CanRunAll(f, after[|before|..]) && g == RunAll(f, after[|before|..])
  }

  lemma AdvancesTwice(f: File, a: seq<Done>, g: File, b: seq<Done>, h: File, c: seq<Done>)
    requires Advances(f, a, g, b) && Advances(g, b, h, c)
    ensures Advances(f, a, h, c)
  {
    assert c[|a|..] == b[|a|..] + c[|b|..];
    RunAllConcat(f, b[|a|..], c[|b|..]);
  }

  lemma AdvancesByOne(f: File, a: seq<Done>, g: File, b: seq<Done>, d: Done)
    requires Advances(f, a, g, b) && CanRun(g, d)
    ensures Advances(f, a, Run(g, d), b + [d])
  {
    assert (b + [d])[|a|..] == b[|a|..] + [d];
  }

  // --- What a log does to the file ---

  /** The bytes a log's operations put into the file through `fd`, in execution order. */
  function Accepted(fd: int, log: seq<Done>): seq<byte> {
    if log == [] then []
    else
      var n := |log| - 1;
      Accepted(fd, log[..n]) + AcceptedBy(fd, log[n])
  }

  function AcceptedBy(fd: int, d: Done): seq<byte> {
    match d.entry.op
    case Write(w, bytes) => if w == fd && 0 <= d.res <= |bytes| then bytes[..d.res] else []
    case Splice(fdIn, fdOut, _) => if fdIn != fd && fdOut == fd then d.data else []
    case Read(_, _, _) => []
  }

  /** The bytes a log's operations took from the file at the current position of `fd`, in execution order. */
  function Returned(fd: int, log: seq<Done>): seq<byte> {
    if log == [] then []
    else
      var n := |log| - 1;
      Returned(fd, log[..n]) + ReturnedBy(fd, log[n])
  }

  function ReturnedBy(fd: int, d: Done): seq<byte> {
    match d.entry.op
    case Read(r, offset, _) => if r == fd && offset == CURRENT then d.data else []
    case Splice(fdIn, _, _) => if fdIn == fd then d.data else []
    case Write(_, _) => []
  }

  predicate AtEnd(f: File) {
    f.append || f.pos == |f.bytes|
  }

  lemma WriteAtEnd(f: File, data: seq<byte>)
    requires AtEnd(f)
    ensures WriteSome(f, data).bytes == f.bytes + data
    ensures AtEnd(WriteSome(f, data))
    ensures f.pos == |f.bytes| ==> WriteSome(f, data).pos == |f.bytes| + |data|
  {
  }

  lemma RunAppends(f: File, d: Done)
    requires CanRun(f, d) && AtEnd(f)
    ensures var g := Run(f, d);
            && g.bytes == f.bytes + AcceptedBy(f.fd, d)
            && g.(bytes := f.bytes, pos := f.pos) == f && AtEnd(g)
            && (f.pos == |f.bytes| ==> g.pos == |g.bytes|)
  {
    WriteAtEnd(f, AcceptedBy(f.fd, d));
  }

  /** On a descriptor that writes at the end, any log appends exactly the bytes its writes accepted,
      in the order they ran, whatever else is in it. */
  lemma {:induction false} LogAppends(f: File, log: seq<Done>)
    requires CanRunAll(f, log) && AtEnd(f)
    ensures var g := RunAll(f, log);
            && g.bytes == f.bytes + Accepted(f.fd, log)
            && g.(bytes := f.bytes, pos := f.pos) == f && AtEnd(g)
            && (f.pos == |f.bytes| ==> g.pos == |g.bytes|)
  {
    hide CanRun, Run, AcceptedBy, AtEnd;
    if log != [] {
      var n := |log| - 1;
      LogAppends(f, log[..n]);
      RunAppends(RunAll(f, log[..n]), log[n]);
    }
  }

  lemma SliceJoins(bytes: seq<byte>, at: nat, m: nat, n: nat)
    requires |Slice(bytes, at, m)| == m
    ensures Slice(bytes, at, m) + Slice(bytes, at + m, n) == Slice(bytes, at, m + n)
  {
  }

  lemma RunReads(f: File, d: Done)
    requires CanRun(f, d) && AcceptedBy(f.fd, d) == []
    ensures Run(f, d) == f.(pos := f.pos + |ReturnedBy(f.fd, d)|)
    ensures ReturnedBy(f.fd, d) == Slice(f.bytes, f.pos, |ReturnedBy(f.fd, d)|)
  {
    match d.entry.op
    case Read(fd, offset, _) =>
    case Write(fd, bytes) =>
      if fd == f.fd && d.res >= 0 {
        assert |bytes[..d.res]| == d.res;
      }
    case Splice(_, _, _) =>
  }

  lemma TileOn(f: File, g: File, h: File, sofar: seq<byte>, more: seq<byte>)
    requires g == f.(pos := f.pos + |sofar|) && sofar == Slice(f.bytes, f.pos, |sofar|)
    requires h == g.(pos := g.pos + |more|) && more == Slice(g.bytes, g.pos, |more|)
    ensures h == f.(pos := f.pos + |sofar + more|)
    ensures sofar + more == Slice(f.bytes, f.pos, |sofar + more|)
  {
    SliceJoins(f.bytes, f.pos, |sofar|, |more|);
  }

  /** Reads at the current position tile the file: taken in execution order, the pieces are the
      bytes from the first position to the last, with none twice and none left out. */
  lemma {:induction false} LogTiles(f: File, log: seq<Done>)
    requires CanRunAll(f, log) && Accepted(f.fd, log) == []
    ensures var g, total := RunAll(f, log), |Returned(f.fd, log)|;
            && g == f.(pos := f.pos + total)
            && Returned(f.fd, log) == Slice(f.bytes, f.pos, total)
  {
    hide CanRun, Run, AcceptedBy, ReturnedBy;
    if log != [] {
      var n := |log| - 1;
      LogTiles(f, log[..n]);
      RunReads(RunAll(f, log[..n]), log[n]);
      hide Slice;
      TileOn(f, RunAll(f, log[..n]), RunAll(f, log), Returned(f.fd, log[..n]), ReturnedBy(f.fd, log[n]));
    }
  }

  /** A read at the position that gives nothing, though asked for something, was at the end of the file. */
  lemma {:induction false} EmptyReadAtEnd(f: File, log: seq<Done>, k: nat)
    requires CanRunAll(f, log) && Accepted(f.fd, log) == [] && k < |log|
    requires log[k].entry.op.Read? && log[k].entry.op.fd == f.fd && log[k].entry.op.offset == CURRENT
    requires log[k].res == 0 && log[k].entry.op.size > 0
    ensures f.pos + |Returned(f.fd, log)| >= |f.bytes|
  {
    hide Slice;
    var n := |log| - 1;
    LogTiles(f, log[..n]);
    if k == n {
      NothingLeft(f.bytes, f.pos + |Returned(f.fd, log[..n])|, log[k].entry.op.size);
    } else {
      EmptyReadAtEnd(f, log[..n], k);
    }
  }

  /** Without accepted writes the bytes never change, so every read in the log is of the file as it was. */
  lemma {:induction false} LogReads(f: File, log: seq<Done>, d: Done)
    requires CanRunAll(f, log) && Accepted(f.fd, log) == [] && d in log
    requires d.entry.op.Read? && d.entry.op.fd == f.fd && d.entry.op.offset != CURRENT && d.res >= 0
    ensures d.data == Slice(f.bytes, d.entry.op.offset, d.res) && f.canRead && d.entry.op.offset <= I64_MAX
    ensures d.res == 0 ==> Slice(f.bytes, d.entry.op.offset, d.entry.op.size) == []
  {
    var n := |log| - 1;
    if d == log[n] {
      LogTiles(f, log[..n]);
    } else {
      assert d in log[..n];
      LogReads(f, log[..n], d);
    }
  }

  // --- Partial transfers ---

  lemma OverwriteTwice(bytes: seq<byte>, at: nat, a: seq<byte>, b: seq<byte>)
    requires a != [] && b != []
    ensures Overwrite(Overwrite(bytes, at, a), at + |a|, b) == Overwrite(bytes, at, a + b)
  {
    var mid := Overwrite(bytes, at, a);
    if at >= |bytes| {
      assert bytes + Zeros(at - |bytes|) + a + b == bytes + Zeros(at - |bytes|) + (a + b);
    } else {
      assert mid[..at + |a|] == bytes[..at] + a;
      if at + |a| < |bytes| {
        assert mid[at + |a|..] == bytes[at + |a|..];
      }
    }
  }

  lemma NothingWritten(f: File)
    ensures WriteSome(f, []) == f
  {
  }

  /** Two writes in a row are one write of both. */
  lemma {:induction false} WriteTwice(f: File, a: seq<byte>, b: seq<byte>)
    ensures WriteSome(WriteSome(f, a), b) == WriteSome(f, a + b)
  {
    if a == [] {
      assert a + b == b;
    } else if b == [] {
      assert a + b == a;
    } else {
      OverwriteTwice(f.bytes, if f.append then |f.bytes| else f.pos, a, b);
    }
  }

  /** Only the bytes and the position ever change. */
  lemma {:induction false} RunAllKeepsDescriptor(f: File, log: seq<Done>)
    ensures RunAll(f, log).(bytes := f.bytes, pos := f.pos) == f
  {
    if log != [] {
      RunAllKeepsDescriptor(f, log[..|log| - 1]);
    }
  }

  /** Whatever a log puts into the file or takes from it at the position, the descriptor has the access for. */
  lemma {:induction false} LogNeedsAccess(f: File, log: seq<Done>)
    requires CanRunAll(f, log)
    ensures !f.canWrite ==> Accepted(f.fd, log) == [] && RunAll(f, log).bytes == f.bytes
    ensures !f.canRead ==> Returned(f.fd, log) == [] && RunAll(f, log) == WriteSome(f, Accepted(f.fd, log))
  {
    if log != [] {
      var n := |log| - 1;
      LogNeedsAccess(f, log[..n]);
      RunAllKeepsDescriptor(f, log[..n]);
      hide CanRunAll, RunAll;
      NeedsAccess(RunAll(f, log[..n]), log[n]);
    }
    hide CanRun, Run, AcceptedBy, ReturnedBy, WriteSome;
    if !f.canWrite {
      LogTiles(f, log);
    }
    if !f.canRead {
      LogWrites(f, log);
    }
  }

  lemma NeedsAccess(f: File, d: Done)
    requires CanRun(f, d)
    ensures !f.canWrite ==> AcceptedBy(f.fd, d) == []
    ensures !f.canRead ==> ReturnedBy(f.fd, d) == []
    ensures d.res >= 0 && d.entry.op.Read? && d.entry.op.fd == f.fd ==>
              f.canRead && (d.entry.op.offset == CURRENT || d.entry.op.offset <= I64_MAX)
    ensures d.res >= 0 && d.entry.op.Write? && d.entry.op.fd == f.fd ==> f.canWrite
  {
  }

  /** A log that takes nothing from the file at the descriptor's position amounts to one write of the
      bytes it put there, wherever the position is. */
  lemma {:induction false} LogWrites(f: File, log: seq<Done>)
    requires CanRunAll(f, log) && Returned(f.fd, log) == []
    ensures RunAll(f, log) == WriteSome(f, Accepted(f.fd, log))
  {
    hide CanRun, Run, AcceptedBy, ReturnedBy, WriteSome;
    NothingWritten(f);
    if log != [] {
      var n := |log| - 1;
      LogWrites(f, log[..n]);
      RunAllKeepsDescriptor(f, log[..n]);
      RunWrites(RunAll(f, log[..n]), log[n]);
      WriteTwice(f, Accepted(f.fd, log[..n]), AcceptedBy(f.fd, log[n]));
    }
  }

  lemma RunWrites(f: File, d: Done)
    requires CanRun(f, d) && ReturnedBy(f.fd, d) == []
    ensures Run(f, d) == WriteSome(f, AcceptedBy(f.fd, d))
  {
  }
}
