# Verification of the io_uring engine and the file stream of py-native-io

This project models the part of py-native-io where correctness depends on what happens between calls:
the per-thread `io_uring` engine (`src/engines/linux.rs`) and the file stream over it (`src/file_io.rs`),
with the mode strings (`src/file_mode.rs`, `py_native_io/patch.py`) and the kernel-version gate beside them.

`dafny verify dfyconfig.toml` checks all of it.

## How the model is laid out

| file | contents |
|---|---|
| `IoTypes.dfy` | bytes, errors, submission and completion entries |
| `RingProtocol.dfy` | one ring as a transition system: six kinds of step, one invariant, what every run guarantees |
| `Threads.dfy` | many rings sharing the u64 id counter, under any interleaving |
| `LinuxEngine.dfy` | the engine itself: classes `Counter` and `ThreadRing`, whose methods follow the Rust functions loop by loop |
| `FileModel.dfy` | a file as bytes plus one descriptor (position, append flag, access), and what a log of ring operations does to it |
| `Calls.dfy` | what one engine call leaves in the history, its buffers, and the leak accounting between calls |
| `RanDuring.dfy` | what the kernel ran while a call was under way, the call's own part of it told apart from stale entries of earlier calls |
| `BatchTheorems.dfy`, `BatchReads.dfy`, `BatchRoutes.dfy` | batches of writes and of reads, for any execution order and any short transfer; when the two routes of a batch agree |
| `CallEffects.dfy` | what one whole call, finished or failed, means for the file |
| `Accounts.dfy` | what the ring writes over a whole run, stale operations included, against what the calls return |
| `NativeFile.dfy` | class `NativeFileIO`: `read`, `write`, `seek`, `tell`, `close`, and the four asynchronous calls with their ring route and their reopen-the-path route |
| `StreamRuns.dfy` | whole lives of a stream, as sequences of effects on its file |
| `Sessions.dfy` | any list of calls on one stream, one after the other |
| `FileModes.dfy`, `KernelVersion.dfy` | mode strings, open flags, wrapper choice; version parsing, the gate, the ring size |

The pieces meet as follows. Every change to the queues and the table of a `ThreadRing` is one step of `RingProtocol`, and
`ThreadRing.Valid` says that the object's fields are exactly the state its ghost `trace` leads to. So whatever
is proved of all runs of the protocol holds of every reachable engine object. `Threads.ViewIsARun` shows that a
thread inside any interleaving sees such a run, and `Threads.RingRunsAnywhere` that what a ring does by itself, taking
ids included, it can do in the middle of any interleaving; `ThreadRing.TraceIsAView` joins the two: all that ever
happened to an engine object is what one thread does in some run of many. A ghost record of the engine's own
system calls (`ThreadRing.entered`) counts locks, submits and waits and those that failed; `Reports` says of a
call that an error which is not a result of the kernel is that of a lock or wait that failed in it.
`NativeFileIO` keeps a ghost list of effects, one for each system call and each stretch of kernel activity;
`Valid` says that the file is what those effects make of the file as opened, so the run theorems of `StreamRuns`
apply to every stream. It also keeps the bytes its calls say they wrote (`accepted`), a count of its own system
calls that failed (`faults`), and whether the ring has so far written just what the calls it finished counted
(`clean`); while `clean` holds, the two accounts agree. `Valid` says when it holds: as long as the operations of
failed ring calls have written nothing and finished batches ran in order (`Accounts.Orderly`), which speaks of
the kernel's log and the calls' outcomes alone. `Sessions.PlayAppending` puts it together for any list of calls.

## What is assumed of the kernel

The kernel is a nondeterministic part of the model, bounded by these rules and no others.

- Each consumed submission entry gets exactly one completion, in any order. Completions are never dropped; there
  is no other limit on the completion queue.
- A successful `io_uring_enter` on a non-empty submission queue consumes at least one entry, oldest first. It may
  be partial. Only when the submission queue was empty on entry does success mean that the requested number of
  completions (capped at the completion queue size) is there. This is less than io_uring_enter(2) documents; it
  covers partial submits and interrupted waits.
- Any such call may fail, and a call that fails may still have consumed entries and finished operations.
- Entries are consumed only inside such a call. Operations in flight may finish at any time: inside it, between any
  two system calls of a stream, or later.
- A ring operation takes effect on the file when its completion is posted, and one system call or ring operation
  at a time. Reads and writes may be short; a read gives nothing only at the end of the file. A write to an append
  descriptor goes to the end. Any operation may fail, and then it changed nothing.
- Creating the ring, or taking its lock, may fail in any call.

Three hypotheses stand in the contracts. Fewer than 2^64 ids have been issued (`counter.issued + n < U64`):
`Threads.IdsDistinctIff` shows that ids stay distinct exactly up to 2^64. The path of a stream keeps naming
its file, which nobody else changes. And all ring calls of a stream are made on one thread, hence on one ring.
Some contracts say what they say of an idle ring (`Idle`), on which nothing is
waiting that writes to the stream's descriptor or moves its position; anything else may be waiting there. Elsewhere
they must say less: a stale write left by a failed call can run during, between or after the system calls of a later
one, synchronous calls included. A ring on which nothing waits at all (`Quiet`), such as a fresh one, is idle, and
every finished call keeps a ring idle (`RanDuring.DoneKeepsIdle`); `ThreadRing.HoldsOnlyLeaks` says exactly what can
be waiting between calls.

## What turned out not to hold

- **The two routes of a write.** The path route of `awrite` and `awrite_batch` appends through a second descriptor;
  the ring route writes at the stream's position. For one write, `StreamRuns.WriteRoutesAgreeIff`: they leave the same
  bytes exactly when there is nothing to write or the stream writes at the end, because it appends or stands there
  (`StreamRuns.WriteRoutesDisagree` is a stream that does not).
- **The two routes of a batch of writes.** The ring may run a batch in any order, the path never does.
  `BatchRoutes.WriteBatchRoutesAgreeIff` gives the exact condition for an order and full counts;
  `BatchRoutes.WriteBatchRoutesAlwaysAgreeIff` the one a caller can check beforehand, for whatever order the kernel
  takes: nothing to write, or the stream writes at the end and any two chunks may be swapped.
  `BatchRoutes.WriteBatchRoutesDisagree` is a batch on an append stream that the two routes leave differently.
- **Writes after a fallback write.** Without append the stream's own position stays where it was, and the next write
  on it goes there. `StreamRuns.PathWriteIsOverwritten` gives the resulting file for every position;
  `PathWriteSurvivesIff` says exactly when the bytes that went by the path are still in place;
  `LaterWriteAgreesIff` exactly when the two writes leave what they would have left had both gone by the ring; and
  `LaterWriteElsewhere` is a stream on which the two outcomes differ and, by the path, both writes survive.
- **The two routes of `aread`.** The ring route asks for 65536 bytes when no size is given and passes every size
  through `as u32`; the path route does neither. `NativeFile.ReadRoutesAgreeIff` gives the exact condition for
  full answers to agree, `NativeFile.ReadRoutesDisagree` a file on which they do not. Both routes read from offset 0,
  wherever the stream is.
- **Batches of reads without offsets.** The ring route reads on from the stream's position, the path route from the
  start of the file. `BatchReads.SizeOnlyRoutesAgreeIff`: full reads in order agree exactly when the file repeats, at
  the position, what it starts with, over the total size; `BatchReads.SizeOnlyRoutesDisagree` is a stream where it does
  not. In lists that give some offsets, the path also seeks where the ring does not:
  `BatchReads.MixedRoutesAgreeIff` gives the condition for any list, `BatchReads.MixedRoutesDisagree` a witness.
- **Access.** A stream opened for reading only is kept from writing by its descriptor and by the ring, but not by the
  path: `awrite` falls back to a descriptor of its own. `NativeFileIO.ReadOnlyContents` says what the file then
  holds, `AWrite` that the ring never took the data, and `StreamRuns.ReadOnlyStreamGrows` is such a run.
- **The version gate.** The documentation calls 5.10 a strict minimum; the code lets any release text through that
  it cannot read. `KernelVersion.GateClosesIff` says for every text exactly when the gate closes;
  `KernelVersion.GateOpenWithoutDot` and the text "5" are consequences. The model follows the code.
- **Modes with both `w` and `a`.** `FileMode` has both flags set; the file is truncated and not opened for
  appending (`FileModes.OpenOptionsFor`).

## Model

| member | source | states |
|---|---|---|
| RingProtocol.StepInv | src/engines/linux.rs:115-151 | every step of program or kernel keeps each pushed id in exactly one of submission queue, in flight, completion queue, table and handed back, keeps the queue the tail of the push order, and keeps every waiting or returned result the one posted for that id |
| RingProtocol.RunInv | src/engines/linux.rs:115-151 | so does every run, of any length and interleaving |
| RingProtocol.OncePerId | src/engines/linux.rs:120-147 | in a run an id is pushed at most once, completed at most once, handed back at most once |
| RingProtocol.ResultsAreDelivered | src/engines/linux.rs:115-151 | a result taken for an id is that of the only completion ever posted under it, which came earlier and belongs to the only entry ever pushed under it |
| RingProtocol.UnreadIsInOnePlace | src/engines/linux.rs:120-149 | a pushed id not yet returned is in exactly one of submission queue, in flight, completion queue and table |
| RingProtocol.QueueIsTail | src/engines/linux.rs:177-184 | the submission queue never exceeds its capacity and is the not yet consumed end of the push order |
| RingProtocol.ReapNeverOverwrites | src/engines/linux.rs:127-129 | `completed.insert` never replaces a result, nor revives one already returned |
| RingProtocol.OutstandingIsUnread | src/engines/linux.rs:120-149 | the ids left in queues and table are exactly those pushed and never handed back |
| RingProtocol.KernelRunMoves | src/engines/linux.rs:136-149 | kernel activity of any length pushes, reaps and takes nothing, only shortens the submission queue, and keeps the number of undrained operations |
| RingProtocol.WaitEndsIff | src/engines/linux.rs:149-149 | a wait for `want` completions can end exactly when at least `want` operations are undrained |
| Threads.HandedOutInOrder | src/engines/linux.rs:29-29 | under any interleaving of single and block increments, the k-th id handed out is (1 + k) mod 2^64 |
| Threads.IdsDistinctIff | src/engines/linux.rs:29-29 | no id is handed out twice exactly while at most 2^64 have been issued |
| Threads.ThreadsIsolated | src/engines/linux.rs:168-168 | until then no two threads ever hold or have used the same id |
| Threads.ViewIsARun | src/engines/linux.rs:60-77 | what one thread does and undergoes inside any interleaving is a run of its own ring |
| Threads.RingKeepsInv | src/engines/linux.rs:38-40 | every thread's ring keeps the invariant in every interleaving |
| Threads.ResultsReachTheirOwner | src/engines/linux.rs:115-151 | across all threads, a result is taken only by the thread that pushed the entry it was posted for, and no other thread ever pushed that id |
| Threads.RingRunsAnywhere | src/engines/linux.rs:60-77 | any run of one ring, the ids it takes included, can happen in the middle of any interleaving: another thread at most takes the ids in between, and no other ring is touched |
| LinuxEngine.ThreadRing.constructor | src/engines/linux.rs:66-73 | a new ring is empty, between calls, and at the start of the protocol |
| LinuxEngine.ThreadRing.Enter | src/engines/linux.rs:136-137 | the only promises of a submit: it may be asked for no more completions than are undrained, its count is what left the queue, a success on a non-empty queue submits something, a success on an empty one has the completions asked for; each call, and each failure, is put on record |
| LinuxEngine.ThreadRing.KernelRuns | src/engines/linux.rs:125-130 | between calls the kernel finishes some of what is in flight, in any order, and nothing else changes |
| LinuxEngine.ThreadRing.Drain | src/engines/linux.rs:125-130 | empties the completion queue and takes at least the completions that were there off the undrained ones; what goes where is fixed by the invariant |
| LinuxEngine.ThreadRing.PushWithRetry | src/engines/linux.rs:177-184 | with room in the queue the entry goes straight behind the others and no system call is made; on a full queue there is one submit that waits for one completion, after which the second push always fits, so "SQ queue full" is never returned; it fails exactly when that submit failed, and then pushes nothing |
| LinuxEngine.ThreadRing.TakeIds | src/engines/linux.rs:212-212 | a block of consecutive ids this ring has never used, starting at the counter's old value |
| LinuxEngine.ThreadRing.LookFor | src/engines/linux.rs:120-147 | the table, then what has been posted, then what one submit without waiting brings about: takes this id's result if it is in the table or posted, without a system call, and if it returns nothing the completion queue is empty |
| LinuxEngine.ThreadRing.PollCompletionForId | src/engines/linux.rs:115-151 | terminates under partial submits and ignored submit errors; a success takes this id's result and no other, an error takes none; every wait it does can end, comes after a submit that does not wait, and is made with nothing left to reap; a result already posted is returned without a system call; it errs exactly when a wait has failed |
| LinuxEngine.ThreadRing.BufferOf | src/engines/linux.rs:193-197 | once a call has taken its i-th result, the buffer of its i-th operation holds what the kernel returned for that very operation |
| LinuxEngine.ThreadRing.TraceIsAView | src/engines/linux.rs:38-40 | all that ever happened to an engine object, its ids included, is what one thread does in some run of many |
| LinuxEngine.ThreadRing.HandedBackIsDelivered | src/engines/linux.rs:120-147 | every result an engine object ever handed back is the one posted for the entry pushed under that id |
| LinuxEngine.ThreadRing.HoldsOnlyLeaks | src/engines/linux.rs:177-197 | between calls queues and table hold exactly what failed calls pushed and nobody read; after no failed call all four are empty |
| LinuxEngine.ThreadRing.StaysReady | src/engines/linux.rs:29-40 | whatever ids other threads' rings take meanwhile, a ring is still ready for its next call |
| LinuxEngine.ThreadRing.PushAll | src/engines/linux.rs:217-234 | for any batch length and any ring capacity, the entries pushed are the first `p` of the batch, once each, in order, under consecutive ids; all of them, and all undrained, unless a submit that waits has failed |
| LinuxEngine.ThreadRing.Begin | src/engines/linux.rs:299-320 | takes the ids, locks the ring once, and pushes everything unless the lock or a submit that waits has failed; then at least as many operations are undrained as the batch wait will ask for |
| LinuxEngine.ThreadRing.SubmitBatch | src/engines/linux.rs:212-238 | waits last for the whole batch, and that wait cannot hang, whatever the push loop's own waits consumed; it errs exactly when a lock or a submit that waits has failed |
| LinuxEngine.ThreadRing.SubmitUringRead | src/engines/linux.rs:165-198 | one entry under one fresh id, asking for the low 32 bits of the size at the offset; success returns exactly the bytes the kernel put in this call's buffer; an error is the negated result, or of a lock or wait that failed in this call, and no such failure is kept quiet |
| LinuxEngine.ThreadRing.SubmitUringReadBatch | src/engines/linux.rs:202-252 | asks for the low 32 bits of each size at its offset; a value exactly when all operations completed without error, and then the i-th buffer holds what the kernel read for the i-th specification; otherwise the results before the error were non-negative and the error is the first negative one, or of a lock or wait that failed in this call |
| LinuxEngine.ThreadRing.SubmitUringWrite | src/engines/linux.rs:257-288 | one entry at the current position under one fresh id, of as many bytes as the low 32 bits of the length; success returns the count posted for it; an error is the negated result, or of a lock or wait that failed in this call |
| LinuxEngine.ThreadRing.SubmitUringWriteBatch | src/engines/linux.rs:292-339 | writes of each chunk, as many bytes as the low 32 bits of its length; a value exactly when all operations completed without error, and then the i-th count is that of the i-th chunk; otherwise the results before the error were non-negative and the error is the first negative one, or of a lock or wait that failed in this call |
| LinuxEngine.ThreadRing.SubmitUringSplice | src/engines/linux.rs:344-384 | one entry under one fresh id; success returns the count posted for it, at most the low 32 bits of the size; an error is the negated result, or of a lock or wait that failed in this call |
| LinuxEngine.ThreadRing.FlushThreadRing | src/engines/linux.rs:155-160 | one lock and one submit that does not wait; only the kernel moves; the count is what left the queue; it errs exactly when the lock or the submit failed; no call's accounting changes |
| Calls.CallResults | src/engines/linux.rs:240-249 | the i-th result of a call is the kernel's result for its i-th operation |
| Calls.LeakAccounting | src/engines/linux.rs:236-251 | between calls the ids left over are exactly those pushed but unread by calls that returned an error |
| Calls.NoFailureNoLeak | src/engines/linux.rs:322-338 | if no call failed, both queues, the kernel's hands and the table are empty |
| Calls.CallKeepsBoundary | src/engines/linux.rs:177-197 | any call, finished or failed part way, keeps that accounting |
| Calls.FullTransfersCanRun | src/engines/linux.rs:172-175 | what is asked of the kernel can be carried out in full: a read of a u32 size returns all the file has there up to that size, and a write of a u32 length accepts every byte |
| FileModel.SliceHolds | src/engines/linux.rs:172-175 | bytes from an offset: as many as there are up to the number asked for, each from its place, none beyond the end |
| FileModel.LogAppends | src/file_io.rs:246-247 | on a descriptor that writes at the end, any log of operations appends exactly the accepted bytes in execution order |
| FileModel.LogTiles | src/engines/linux.rs:217-224 | reads at the current position, in execution order, are consecutive pieces from the first position to the last |
| FileModel.LogReads | src/engines/linux.rs:172-175 | while no write is accepted, a read at an explicit offset returns the file's bytes at that offset, and nothing only beyond the end |
| FileModel.EmptyReadAtEnd | src/engines/linux.rs:172-175 | a read at the position that was asked for something and gives nothing was at the end of the file |
| FileModel.LogNeedsAccess | src/engines/linux.rs:172-175 | operations of the ring put bytes into the file only if the descriptor may write, and take some from it at the position only if it may read |
| FileModel.LogWrites | src/engines/linux.rs:263-266 | a log that takes nothing at the position amounts to one write of the bytes it accepted, wherever the position is |
| FileModel.WriteTwice | src/file_io.rs:119-121 | two writes in a row are one write of both, on any descriptor |
| RanDuring.OwnRuns | src/engines/linux.rs:171-191 | if everything else in a log leaves the file alone, the log does to the file, and to the accepted and returned bytes, what the call's own operations in it do |
| RanDuring.HarmlessCall | src/engines/linux.rs:171-191 | on an idle ring a call of operations that do not touch the file leaves it and its position alone, finished or failed, whatever stale entries run |
| RanDuring.DoneKeepsQuiet | src/engines/linux.rs:189-197 | from a quiet ring a finished call leaves a quiet ring |
| RanDuring.DoneKeepsIdle | src/engines/linux.rs:189-197 | a finished call leaves nothing waiting that was not waiting before |
| BatchTheorems.CallRunsOnce | src/engines/linux.rs:240-249 | whatever stale entries run meanwhile, a finished call ran each of its own operations exactly once, with the result it took |
| BatchTheorems.AcceptedIsGathered | src/engines/linux.rs:303-320 | what a batch's own operations put into the file is the accepted piece of each, joined in the order of execution |
| BatchTheorems.WriteBatchAccepts | src/engines/linux.rs:292-339 | whatever else runs, whatever the execution order and however short the writes, a finished batch puts the counted prefix of each chunk into the file, once each, as long as the counts add up to |
| BatchTheorems.WriteBatchConserves | src/engines/linux.rs:292-339 | on an idle ring, wherever the position is, that amounts to one write of those prefixes, in the order of execution |
| BatchTheorems.WriteBatchInOrder | src/engines/linux.rs:292-339 | on an idle ring, executed in the order pushed, on any descriptor, file and position equal those of single writes one after the other |
| BatchTheorems.RepeatedIsOneWrite | src/engines/linux.rs:257-288 | repeated single writes leave what one write of all they accepted leaves |
| BatchReads.ReadBatchTiles | src/engines/linux.rs:202-252 | on an idle ring, any list of specifications in any order of execution: the file is unchanged, buffers with an offset hold its bytes there, and the others tile it from the position before to the position after; a buffer asked to hold something is empty only at the end of the file |
| BatchReads.ReadBatchInOrder | src/engines/linux.rs:217-224 | executed in the order pushed, a ring batch reads in turn from the stream's position |
| BatchReads.FullReadsAreSequential | src/file_io.rs:310-322 | reads in turn, by either route, are all full exactly when they return what the seek-and-read loop with full reads returns |
| BatchReads.ExplicitReads | src/file_io.rs:313-320 | with full reads at explicit offsets that loop returns the slice at each offset, wherever it starts |
| BatchReads.FullPositionedReads | src/file_io.rs:310-322 | full reads at explicit offsets, in whatever order they ran, are the list that loop returns |
| BatchReads.InTurnIsInPlace | src/file_io.rs:313-322 | reads in turn, short or not, hold the file's bytes wherever an offset was given |
| BatchReads.InTurnJoins | src/file_io.rs:260-261 | size-only reads in turn join up, in list order, to the bytes from where they started |
| BatchReads.SizeOnlyRoutesAgreeIff | src/file_io.rs:298-322 | full size-only answers of the two routes, in order, are equal exactly when the file repeats at the position what it starts with, over the total size |
| BatchReads.SizeOnlyRoutesDisagree | src/file_io.rs:298-322 | a stream on which the two routes answer differently |
| BatchReads.MixedRoutesAgreeIff | src/file_io.rs:298-322 | full answers to any list, in order, are equal exactly when at every size-only read of it the file holds the same at the two places, computed from the list, where the routes come to it |
| BatchReads.MixedRoutesDisagree | src/file_io.rs:298-322 | a list with one offset on which the two routes answer differently |
| BatchRoutes.WriteBatchRoutesAgreeIff | src/file_io.rs:387-402 | a full ring batch run in a given order and the path batch leave the same bytes exactly when nothing is written, or the stream writes at the end and that order joins the chunks to the same bytes |
| BatchRoutes.OrderIsImmaterialIff | src/engines/linux.rs:303-322 | every order joins the chunks to the same bytes exactly when any two of them may be swapped |
| BatchRoutes.WriteBatchRoutesAlwaysAgreeIff | src/file_io.rs:387-402 | the two routes of a full batch leave the same bytes in every order exactly when nothing is written, or the stream writes at the end and any two chunks may be swapped |
| BatchRoutes.WriteBatchRoutesDisagree | src/file_io.rs:387-402 | a batch on an append stream that the two routes leave differently |
| CallEffects.KernelAlone | src/engines/linux.rs:136-137 | on an idle ring, kernel activity between calls leaves file, position and idleness alone |
| CallEffects.SingleWrite | src/engines/linux.rs:257-288 | on an idle ring, wherever the position is, a finished write leaves the file and position of one write of exactly the prefix its result counts |
| CallEffects.SingleReadReturns | src/engines/linux.rs:165-198 | a finished positioned read, while no write runs, returns the file's bytes there, at most the low 32 bits of the size, and if these are not zero nothing only beyond the end |
| CallEffects.FinishedNeedsAccess | src/engines/linux.rs:189-195 | an operation that finished without an error ran on a descriptor open for it, a read at an offset an i64 holds |
| CallEffects.ReadsHeld | src/engines/linux.rs:202-252 | whatever else runs, a finished read at an explicit offset, alone or in a batch, returns what the file held there at some moment of the call |
| CallEffects.WriteBatchCall | src/engines/linux.rs:292-339 | every count is that of a prefix of its chunk; on an idle ring the batch is one write of some arrangement of those prefixes, of their concatenation if run in order, and the ring stays idle |
| Accounts.StaleIsOfFailed | src/engines/linux.rs:171-191 | whatever is waiting between calls was pushed by a call that returned an error |
| Accounts.OthersWriteNothing | src/engines/linux.rs:171-191 | if operations of failed calls write nothing, nothing but the call itself writes during it |
| Accounts.FailedCallWritesNothing | src/engines/linux.rs:189-195 | then nothing at all is written during a call that fails |
| Accounts.WritesWhatItReturns | src/engines/linux.rs:292-339 | and if finished batches ran in order, what is written during a finished batch is the counted prefix of each chunk, in order, whatever stale operations run |
| NativeFile.NativeFileIO.constructor | src/file_io.rs:45-49 | the stream just opened: `w` empties the file, otherwise it is as found; position 0; access as parsed; writes append exactly with `a` and no `w` |
| NativeFile.NativeFileIO.Open | src/file_io.rs:27-50 | a stream exactly when open(2) allows it and the file exists or the mode writes; a missing file is then created, and without a stream the file is as it was |
| NativeFile.NativeFileIO.Read | src/file_io.rs:53-78 | the bytes its system calls read, in order; with a size one read, empty only at the end; a negative size ends at the end of the file; on an idle ring they are the bytes from the position on, which moves by as many, on failure too; it errs exactly when a read failed, and always without read access; closed streams refuse |
| NativeFile.NativeFileIO.ReadToEnd | src/file_io.rs:64-66 | repeated short reads, the kernel running in between, end at the end of the file, and the call terminates; it errs exactly when a read failed |
| NativeFile.NativeFileIO.Write | src/file_io.rs:103-123 | every byte once and in order across partial writes, or an error after a prefix, exactly when a write failed or accepted nothing, and always without write access; on an idle ring the file is that of one write of it, and on a truncated stream position, length and returned counts keep agreeing |
| NativeFile.NativeFileIO.WriteAll | src/file_io.rs:118-122 | partial writes in a row accept the argument once, in order; or a prefix of it, exactly when a write failed or accepted nothing |
| NativeFile.NativeFileIO.Seek | src/file_io.rs:438-449 | `pos` itself for whence 0, the position plus `pos` for 1, the length plus `pos` for 2, reckoned from the file as the kernel left it, if from 0 to 2^63 - 1; otherwise, for another whence and for a closed stream the exact error, and the position stays |
| NativeFile.NativeFileIO.Tell | src/file_io.rs:452-454 | the position as of the return, whatever the ring runs meanwhile; on an idle ring file and position are as they were |
| NativeFile.NativeFileIO.Close | src/file_io.rs:412-419 | the stream is closed and keeps its invariant |
| NativeFile.NativeFileIO.ARead | src/file_io.rs:126-192 | the ring is asked once, for the given size or 65536, and its answer is returned exactly when that ring call succeeded; otherwise the path is reopened once, and an error means that a system call on it failed; on an idle ring both routes answer with a prefix of the file within their own limit, empty only if the file is or nothing was asked for, and neither changes the file, its position, the idleness or the account; on any ring the ring route answers with what the file held at some moment; without read access only the path can answer |
| NativeFile.ReadRoutesAgreeIff | src/file_io.rs:153-181 | full answers of the two routes agree exactly when the size is given and fits a u32, or the file is no longer than the ring was asked for |
| NativeFile.ReadRoutesDisagree | src/file_io.rs:153-181 | a file of 65537 bytes read without a size: the two full answers differ |
| NativeFile.NativeFileIO.PathReadAll | src/file_io.rs:174-182 | while the ring writes nothing, the path route answers with a prefix of the file, all of it for a negative size; it errs exactly when opening or reading there failed |
| NativeFile.NativeFileIO.AWrite | src/file_io.rs:195-256 | the ring is asked once for a write of the data, and its count is returned exactly when that ring call succeeded; otherwise the path is reopened once and either takes all of it or a system call on it failed; on an idle ring the ring route is one write of the counted prefix at whatever position; the path route appends everything on any stream while the ring writes nothing; on an append stream either adds exactly what was accepted; without write access only the path can take it |
| NativeFile.NativeFileIO.AReadBatch | src/file_io.rs:259-338 | the route and the errors as for aread, and never a value for an offset that an i64 does not hold; with offsets, on an idle ring, both routes return the file's bytes at each offset and leave the stream alone; on any ring, buffers the ring filled at an offset hold what the file held there at some moment; without offsets the ring tiles the file from the position, in turn if run in order, and the path reads in turn from the start |
| NativeFile.NativeFileIO.PathReadBatch | src/file_io.rs:310-324 | while the ring writes nothing, one read per specification in turn on a fresh descriptor; an error exactly when opening, seeking or reading there failed |
| NativeFile.NativeFileIO.PathReadOne | src/file_io.rs:313-321 | a specification with an offset seeks there first, one without reads on; the next position is behind what was read; an offset that an i64 does not hold is an error |
| NativeFile.NativeFileIO.AWriteBatch | src/file_io.rs:341-409 | the route and the errors as for awrite; on an idle ring the ring route is one write, at whatever position, of each chunk's counted prefix once, in order if run in order; the path route appends every chunk whole, in order, while the ring writes nothing |
| NativeFile.NativeFileIO.PathWriteBatch | src/file_io.rs:394-402 | all chunks in order with their full lengths, or an error after a prefix of their concatenation, exactly when opening or writing there failed |
| NativeFile.NativeFileIO.AppendedContents | src/file_mode.rs:36-37 | a stream opened for appending always holds what it was opened with, followed by every byte accepted since, whatever the calls and routes |
| NativeFile.NativeFileIO.AcceptedContents | src/file_io.rs:228-248 | and, as long as failed ring calls have written nothing and finished batches ran in order, followed by what each call returned as written, in the order of the calls; grown by the counts returned, if no writing call erred |
| NativeFile.NativeFileIO.NoFailureIsOrderly | src/engines/linux.rs:189-197 | if no call on the ring has failed, the second of those conditions is enough |
| NativeFile.NativeFileIO.TruncatedContents | src/file_mode.rs:34-35 | the same of a stream opened with `w` that has not sought, read or gone by the path, with the position at the end |
| NativeFile.NativeFileIO.ReadOnlyContents | src/file_io.rs:246-247 | a stream opened for reading only: whatever is called on it, the file is what it was followed by what `awrite` and `awrite_batch` appended by the path, and the ring has put nothing there |
| Sessions.Serve | src/file_io.rs:53-454 | each call accounts for a prefix of what it was given, or of a batch by the ring the counted prefix of each chunk, in order, or nothing if it does not write; each asynchronous call makes one ring call, and when that fails, all of what it was given unless a system call failed; it leaves the stream ready for the next |
| Sessions.Play | src/file_io.rs:53-454 | any list of calls can be carried through as long as ids last, and accounts for one such part for each, in order |
| Sessions.PlayAppending | src/file_io.rs:228-248 | on a stream just opened for appending, any list of calls, by either route, seeks and reads included, leaves the initial content followed by those parts in order, under the two conditions above |
| StreamRuns.AppendRun | src/file_io.rs:228-248 | in any run on an append descriptor, seeks and reads included, the file is its first content followed by the accepted bytes in order of effect |
| StreamRuns.SequentialRun | src/file_mode.rs:34-35 | a stream that starts at the end and neither seeks, reads nor goes round by the path stays at the end and grows by exactly what was accepted |
| StreamRuns.ReadOnlyRun | src/file_io.rs:230-247 | on a descriptor that may not write, the ring and the descriptor change nothing, and the file grows by what goes by the path, and by nothing else |
| StreamRuns.ReadOnlyStreamGrows | src/file_io.rs:230-247 | a stream opened for reading to which a write refused by the ring is appended by the path |
| StreamRuns.WriteRoutesAgreeIff | src/file_io.rs:228-248 | a write by the ring and an append by the path leave the same bytes exactly when nothing is written or the stream writes at the end, and the same position exactly in the stated cases |
| StreamRuns.PathWriteIsOverwritten | src/file_io.rs:246-247 | without append, at every position, the next write on the descriptor after a path write goes to the old position, over whatever is there |
| StreamRuns.PathWriteSurvivesIff | src/file_io.rs:246-247 | the bytes that went by the path stay in place exactly when that write does not reach them or repeats them |
| StreamRuns.LaterWriteAgreesIff | src/file_io.rs:228-248 | on any stream, a path write then a write leave what two ring writes leave exactly when the stream appends, or the first is empty, or the second is empty at the end, or the second ends at the old end and the two commute |
| StreamRuns.LaterWriteElsewhere | src/file_io.rs:246-247 | a stream on which path-then-write and ring-then-write differ, and by the path both writes survive, apart |
| StreamRuns.WriteRoutesDisagree | src/file_io.rs:228-248 | a stream and one write that the two routes leave differently |
| StreamRuns.ReadsAdvance | src/file_io.rs:64-72 | undisturbed reads return the bytes from the position on and move it by as many |
| StreamRuns.WritesAreOne | src/file_io.rs:119-121 | undisturbed writes on the descriptor are one write of all they accepted |
| StreamRuns.PathWritesAppend | src/file_io.rs:394-402 | appends by the path add exactly their bytes, on any stream, while the ring accepts nothing |
| StreamRuns.TracelessIsInvisible | src/file_io.rs:152-160 | `aread` calls inserted anywhere into a run change no answer of read, write, seek or tell, nor the final file and position |
| FileModes.ConfigureOpenOptions | src/file_mode.rs:32-47 | exactly the flags of the mode are switched on, none off |
| FileModes.OpenOptionsFor | src/file_mode.rs:15-47 | for every mode string: access as parsed and never none, truncate exactly with `w`, append exactly with `a` and no `w`, never both |
| FileModes.RawModeHas | py_native_io/patch.py:49-52 | the rewritten mode has the same letters, plus `b` exactly when there is no `t` |
| FileModes.RawModePlaces | py_native_io/patch.py:49-52 | a mode without `b` and `t` gets its `b` before the plus sign, or at the end if there is none |
| FileModes.RawModeKeepsAccess | py_native_io/patch.py:49-52 | for every mode string, rewriting changes none of readable, writable, append, truncate |
| FileModes.WrapperFitsFile | py_native_io/patch.py:56-90 | buffered exactly for `b` with buffering, text exactly without `b`, unbuffered text refused; the buffer is Random, Writer or Reader exactly when the raw file is read-write, write-only or read-only |
| KernelVersion.DecimalReadsBack | src/engines/linux.rs:80-87 | the value of a number's decimal digits is the number |
| KernelVersion.VersionReadsBack | src/engines/linux.rs:80-87 | a printed version, with any suffix not starting with a digit and any blanks around, parses to the same pair of u32 |
| KernelVersion.GateRejectsOldKernels | src/engines/linux.rs:91-98 | for such release texts the gate rejects exactly the pairs below (5, 10) |
| KernelVersion.GateClosesIff | src/engines/linux.rs:80-98 | for every release text, the gate of a working ring closes exactly when the trimmed text is an optional plus sign, digits of a u32, a dot, and a maximal non-empty run of digits of a u32, with the pair below (5, 10) |
| KernelVersion.GateOpenWithoutDot | src/engines/linux.rs:92-98 | every text without a dot passes the gate |
| KernelVersion.GateIgnoresUnreadableRelease | src/engines/linux.rs:92-98 | the text "5" passes the gate |
| KernelVersion.GateNeedsAll | src/engines/linux.rs:90-112 | without a working ring, a working probe or either opcode the gate is closed; with all of them it is open to a release that cannot be read |
| KernelVersion.PowerOfTwoIff | src/engines/linux.rs:50-52 | the power-of-two check accepts exactly the powers of two |
| KernelVersion.RingSizeIsPowerOfTwo | src/engines/linux.rs:47-56 | whatever the setting, the size is a power of two; a printed setting is followed exactly when it is one |
| KernelVersion.RingSizeFollows | src/engines/linux.rs:47-56 | 1024 without a setting and for every text that is not, after an optional plus sign, the digits of a u32 that is a power of two; such a text is followed |

## Left out

- Windows and macOS engines, sockets, `aprint`, logging, benchmarks and packaging: input and output plumbing or stubs.
- The `io-uring` crate, ring creation on first use and opcode probing: their outcomes are parameters or free choices; reading the environment variable and the release file is a parameter too.
- Buffer lifetimes and raw pointers: buffers are attached to operations as values, so a completion that arrives after its caller's buffer is gone is outside the model.
- PyO3, the interpreter lock, tokio scheduling and asyncio: each asynchronous call is one call on one thread, and all calls of a stream use the ring of the same thread, where the source uses that of whichever worker runs the call, so that stale entries may sit on several rings.
- Real-time interleaving of several streams on one ring is reduced to one stream's file; operations on other descriptors are present but leave that file alone.
- Reuse of a descriptor number after `close` by another file: a stale entry on it counts as an operation on the old file.
- A path that comes to name another file, or a file that somebody else changes.
- `readinto`, `readable`, `writable`, `seekable`, `fileno`, `aclose`, `aflush`: easy members next to those modelled.
- `asplice` on the stream: the engine's splice call is modelled, the wrapper that opens the path and copies by hand on failure is not.
- Extraction of Python arguments and the resulting type errors.
- Retries of interrupted system calls inside Rust's `read_to_end` and `write_all`: an interrupted call appears as an error.
- Overflow panics of debug builds: the id counter wraps as in a release build, and fewer than 2^64 ids are supposed issued.
- Results are unbounded integers where the kernel posts an i32, so a model run may transfer more at once than a real one.
- Exactly-once writes when a ring call fails after executing part of its work and the path route writes everything again: the code does not promise it; `clean` then ends, and the contracts of AWrite and AWriteBatch speak of the case that the ring accepted nothing.
- `patch_python_io`, `patch_stream`, the in-memory streams and the buffered wrappers: thin delegation.
- LinuxEngine.ThreadRing.Enter: promises less of a successful wait than io_uring_enter(2), so that partial submits and interrupted waits are covered.
- LinuxEngine.ThreadRing.TakeIds: supposes fewer than 2^64 ids issued; what happens beyond is `Threads.IdsDistinctIff`.
- NativeFile.NativeFileIO.ARead: on a ring that is not idle, says nothing of the bytes that a read to the end by the path puts together from different moments.
- NativeFile.NativeFileIO.AReadBatch: on a ring that is not idle, says nothing of a buffer without an offset, because stale operations may move the position meanwhile.
- NativeFile.NativeFileIO.AWriteBatch: on a ring that is not idle and a stream that does not append, states the effects on record but not the resulting bytes, which depend on the stale operations.
