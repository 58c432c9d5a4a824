# Verified models of rrdtool's data paths

This project models, in Dafny 4.11, the parts of the bundled rrdtool 1.4.5 whose
correctness is hard to see from reading one function, and proves what they promise.
`dafny verify dfyconfig.toml` verifies all of it.

**The write-behind cache daemon** (`rrd_daemon.c`, `rrd_client.c`).

- `Text` has decimal numerals and `strtol`, `LineText` text as lines. `Wire` has the
  escaping field encoder of the client and the in-place decoder of the daemon, on
  character arrays. `Framing` has the socket's read buffer and the splitting of the stream
  into commands. `Responses` has the status lines, batches and the client's response
  reader.
- `CacheModel` gives each critical section of the cache lock as a function on the value
  of the cache (the files and the write queue). `CacheQueue` has the same sections on the
  real structure, items in a tree that are linked through their own `prev` and `next`
  fields, and proves that each method computes the function of the same name.
- `Daemon` interleaves the sections with any number of client and writer threads. The
  steps are those of the locks: dequeuing a batch, writing it, and recording "wrote" are
  separate steps, and so are a FORGET and its record. Every accepted value is followed
  from the cache through the batch a writer holds to the disk. `Shutdown` shows what
  flushing at shutdown achieves, `WriteOrder` in which order the batches of a file reach
  the disk. `Recovery` relates, in every run and at every moment, the cache to the cache
  replayed from the journal; `Journal` has the journal as the text on disk, which is read
  back in pieces and which a crash may cut off anywhere; and `Restart` what a daemon then
  starts with, so that all statements about runs hold after any number of crashes.
  `Scenarios` has three runs that show the limits of all this. `UpdateRequest` follows an
  UPDATE from the client's list of values to the values enqueued and the answer,
  `Contexts` says which commands are answered where, and `CacheTimes` when files are
  queued and when they leave the cache.

**Archives** (`rrd_fetch.c`, `rrd_dump.c`, `rrd_update.c`, `rrd_graph.c`). `Fetch` chooses
an archive, widens the window, and reads the ring with one seek and one more where it
wraps; `DumpDatabase` walks the same ring. `ArchiveChoice` says what the choice means for
the rows found, `ArchiveUpdate` writes rows into the ring and shows what a fetch then
finds. `Reduce` consolidates fetched rows to a coarser step in the buffer they are in, with
the 64-bit row counter of the code; `DataFetch` puts both together, as fetching for a graph
does. `LeastSquares` is the line fit of `VDEF_LSLSLOPE` and `VDEF_LSLINT`.

**Aberrant behaviour detection** (`rrd_hw_update.c`, `rrd_hw.c`, `rrd_hw_math.c`).
`HoltWinters` has the five archive updates, on values and in place, and their execution in
index order; `ForecastStep` says what a step does to the numbers. `Smoother` has the
circular moving average over a FIFO queue.

**Two in-place algorithms**. `GetOpt` has the block exchange and the permuting scan of
`rrd_getopt.c`, `OptionStrings` what an option string means; `Diff` the decimal string
subtraction of `rrd_diff.c`.

`Arith` holds lemmas about division with a variable divisor, `Reals` lemmas about sums of
real numbers. Doubles are `real`, and a double that may be NaN is an `Option<real>`. The
clock, the random jitter, the order in which the tree is traversed, the sizes of network
reads and writes and the set of files that exist are parameters, so every statement holds
for all of them.

## What turned out to be conditional

- **Recovery is not exact in general.** A "wrote" record makes replay drop everything
  recorded before it, also values accepted after the batch was dequeued. `RunLaw` says
  exactly what is lost, `WroteExactIff` when a record loses nothing, `LateUpdateLost`
  gives a run that loses a value, and `ExactThroughout` is the exact condition on the
  "wrote" records of a run. `Recovery` is the statement for runs in which UPDATEs wait for
  the record, and `TornJournal` extends it to a journal cut off at any byte.
- **Long UPDATEs are not recovered, and longer ones overrun a buffer.** The journal is
  read back in pieces of at most 4095 bytes, so a record is only replayed if its UPDATE has
  at most 4087 bytes (`RunReadBack`); the client sends up to 4088 (`LongRecordLost`). The
  copy that is kept for the journal holds 4095 bytes, and lines of up to 8184 reach it
  (`SaveRequest`, `OverrunServed`); from there on the model excludes them.
- **FORGET is not always replayed.** The "forget" record is written unescaped: only names
  without blank and backslash are forgotten again, and any other record can remove a
  different file (`ReplayForget`, `ForgetsAnother`).
- **Several writer threads may write the batches of one file out of order.** They write
  outside the lock (`LaterBatchOvertakes`). `InOrderExactly` says when the order is kept:
  no write may begin while a batch of the same file that was dequeued earlier is
  unwritten. That is so with one writer thread (`OneThreadInTurn`), or if UPDATEs wait
  for "wrote" records (`QuietInTurn`).
- **The index order of the Holt-Winters archives matters while HWPREDICT bootstraps.**
  `ExactlyWhenIndependent` has the exact condition on the coefficients and the observed
  value, `GoodLayoutsExactly` the exact condition on the layout: FAILURES must not lie
  between SEASONAL and DEVSEASONAL, where the code compares with the index of SEASONAL to
  decide which copy of the deviation to read.
- **An update that completes several rows reports all but the first a step late**
  (`ReportedExactly`): `write_to_rras` subtracts 2 from a counter that it has already
  decremented. The rows themselves are stored where a fetch expects them
  (`FetchedAfterUpdate`).
- **`reduce_data` needs a window that reaches a multiple of the new step.** In a window
  strictly inside one coarse row its row counter wraps: the sanity check stops the
  program unless the factor is a power of two, and then one row too many is written
  (`SanityCheck`, `ReduceData`).
- **The smoother is not the circular moving average its comment describes.** Windows that
  wrap forward use values already smoothed; `CircularExactly` says when that makes no
  difference, `CircularFails` has a column for which it does. Moving the baseline into the
  intercept by addition keeps the forecast of additive coefficients, but of multiplicative
  ones only under the condition in `ForecastKept`; with a baseline of 0 or less they become
  NaN.
- **A list of fields arrives intact unless its last string ends in a carriage return**
  (`ReceivedIntact`), and a stream that no request ends is served to its end exactly when
  every line fits the read buffer (`Serve`).
- **`rrd_diff` is exact up to 28 digits only.** It accepts readings of up to 30 digits,
  but its result buffer has 31 cells and a reading of m digits needs m + 3 of them
  (`Blank`, `RrdDiff`, `OverrunAt29`).
- **Permuting the arguments twice** gives the same vector unless the last option lacked
  its argument (`ScannedAgain`).

## Model

| member | source | states |
|---|---|---|
| Text.DecimalValue | rrdtool-1.4.5/src/rrd_daemon.c:605 | printing a number gives a numeral that denotes it |
| Text.StrToLDecimal | rrdtool-1.4.5/src/rrd_client.c:257-261 | `strtol` reads a printed number back and stops behind it |
| Text.StrToLReads | rrdtool-1.4.5/src/rrd_daemon.c:1428 | `strtol` skips blanks, takes one sign or none, and reads all the digits there are |
| Wire.GetFieldEscape | rrdtool-1.4.5/src/rrd_daemon.c:989-1050 | decoding an escaped field gives the field back and leaves exactly what followed it |
| Wire.RawNameDecodes | rrdtool-1.4.5/src/rrd_daemon.c:1284-1291 | a name written without escaping is read back exactly when it has no blank and no backslash |
| Wire.FieldsOfTerminated | rrdtool-1.4.5/src/rrd_daemon.c:989-1050 | repeated decoding of an encoded list gives the list back with no byte left |
| Wire.BufferAddString | rrdtool-1.4.5/src/rrd_client.c:123-171 | succeeds exactly when the escaped length plus one fits; then the cursor moves by that much, the bytes written are the escaped field and a blank, and all others are kept |
| Wire.Unescape | rrdtool-1.4.5/src/rrd_daemon.c:1011-1040 | the decoding loop over the request itself: the text written never overtakes the text read |
| Wire.BufferGetField | rrdtool-1.4.5/src/rrd_daemon.c:989-1050 | in place, yields the field, where the rest starts and how long it is, or fails without moving; the closing NUL and the bytes around the request are kept |
| Wire.DecodeRequest | rrdtool-1.4.5/src/rrd_daemon.c:1415-1458 | taking fields until none is found yields all fields of the request and the length left |
| Wire.EncodeRequest | rrdtool-1.4.5/src/rrd_client.c:584-620 | the request is complete, with a newline for its last blank, exactly when the whole encoding fits the buffer |
| Wire.RrdcUpdate | rrdtool-1.4.5/src/rrd_client.c:572-633 | a remote daemon is given no absolute name and a local one only a resolved one; with such a name the update is sent, with all its fields, exactly when the whole encoding fits |
| Wire.PathGiven | rrdtool-1.4.5/src/rrd_client.c:72-100 | a local daemon is given what `realpath` makes of a name, a remote one relative names as they are, and no absolute one |
| Wire.NowIsSent | rrdtool-1.4.5/src/rrd_client.c:173-186 | a value for "N" is sent with the current time, other values as they are |
| Framing.CommandsAppend | rrdtool-1.4.5/src/rrd_daemon.c:480-514 | commands completed before more bytes arrive stay, and the rest depend only on the unfinished line and the new bytes |
| Framing.ListenSocket.MoveToFront | rrdtool-1.4.5/src/rrd_daemon.c:487-496 | the unread bytes move to the front of the buffer unchanged |
| Framing.ListenSocket.TakeLine | rrdtool-1.4.5/src/rrd_daemon.c:499-509 | cuts off one line, drops one trailing CR, and never yields a negative length |
| Framing.ListenSocket.NextCmd | rrdtool-1.4.5/src/rrd_daemon.c:480-514 | yields the next complete line, or none and then the unread bytes are at the front |
| Framing.ListenSocket.FindNewline | rrdtool-1.4.5/src/rrd_daemon.c:484-485 | where the next newline of the unread bytes is, if there is one |
| Framing.ListenSocket.Receive | rrdtool-1.4.5/src/rrd_daemon.c:2275-2285 | bytes read are appended to the unread ones |
| Framing.ListenSocket.HandleCommand | rrdtool-1.4.5/src/rrd_daemon.c:1803-1817 | decoding a command in place yields its fields and touches no byte behind it |
| Framing.ListenSocket.Drain | rrdtool-1.4.5/src/rrd_daemon.c:2292-2297 | handles exactly the complete lines in the buffer and leaves the unfinished one, or stops at the first request that ends the connection |
| Framing.Serve | rrdtool-1.4.5/src/rrd_daemon.c:2201-2311 | however the reads cut up the stream, the requests are those of its lines, up to the first that ends the connection; if none does, everything is consumed exactly when all lines fit the buffer, and otherwise up to where a line fills it |
| Framing.ReceivedIntact | rrdtool-1.4.5/src/rrd_daemon.c:504-507 | a list is received as sent exactly when its last string does not end in CR |
| Framing.RequestRoundTrip | rrdtool-1.4.5/src/rrd_client.c:584-620 | an encoded request is one command, and decodes to the list with at most one trailing CR lost |
| Framing.SessionRoundTrip | rrdtool-1.4.5/src/rrd_daemon.c:2275-2297 | a stream of requests decodes to the lists sent, one command each |
| CacheModel.ClockedIncreases | rrdtool-1.4.5/src/rrd_daemon.c:1441-1447 | accepted values have positive, strictly increasing stamps up to the last one |
| CacheModel.AcceptClocked | rrdtool-1.4.5/src/rrd_daemon.c:1415-1458 | the value loop keeps stamps strictly increasing whatever the request |
| CacheModel.StampIs | rrdtool-1.4.5/src/rrd_daemon.c:1426-1433 | a value with a number and a colon in front has that number as its time, with anything else behind the number it has none |
| UpdateRequest.RequestIs | rrdtool-1.4.5/src/rrd_client.c:584-620 | the client's request for a list of values is one line, an UPDATE of this file with these values left |
| UpdateRequest.AcceptsRising | rrdtool-1.4.5/src/rrd_daemon.c:1415-1447 | of a list of values the longest beginning with increasing stamps is accepted, and the loop ends for the reason that stops it there |
| UpdateRequest.AnswersRising | rrdtool-1.4.5/src/rrd_daemon.c:1427-1473 | the answer counts the values if all were accepted, and otherwise names the first that was not |
| UpdateRequest.EnqueuedExactly | rrdtool-1.4.5/src/rrd_daemon.c:1415-1473 | the answer is OK with the number of values exactly when there is one and their stamps increase from the last one on; then all of them, in order, are behind the pending ones, and in any case a beginning of them |
| CacheTimes.QueuedExactly | rrdtool-1.4.5/src/rrd_daemon.c:1460-1465 | after a completely accepted UPDATE the file is queued exactly if it was before, or has pending values and was last flushed a write interval ago or earlier; a new entry stands last, nothing else in the queue changes, and a new item counts as flushed when it is made, plus the jitter |
| CacheTimes.QueuedAgain | rrdtool-1.4.5/src/rrd_daemon.c:650-658 | values for a file whose batch was taken queue it again exactly from a write interval later on, counted from the time of taking plus the jitter |
| CacheModel.UpdateOk | rrdtool-1.4.5/src/rrd_daemon.c:1400-1465 | UPDATE keeps the queue free of duplicates and of files without pending values |
| CacheModel.DequeueOk | rrdtool-1.4.5/src/rrd_daemon.c:927-953 | so does dequeuing, which takes exactly the head off |
| CacheModel.WroteOk | rrdtool-1.4.5/src/rrd_daemon.c:1483-1505 | so does WROTE |
| CacheModel.ForgetOk | rrdtool-1.4.5/src/rrd_daemon.c:1271-1300 | so does FORGET |
| CacheModel.FlushOk | rrdtool-1.4.5/src/rrd_daemon.c:1104-1130 | so does FLUSH |
| CacheModel.SweepOk | rrdtool-1.4.5/src/rrd_daemon.c:808-846 | so does the sweep of the tree |
| CacheModel.FlushKeepsOrder | rrdtool-1.4.5/src/rrd_daemon.c:717-770 | moving a file to the head keeps the order of the others |
| CacheModel.FlushChangesQueueOnly | rrdtool-1.4.5/src/rrd_daemon.c:717-727 | FLUSH changes no item, and nothing at all without pending values |
| CacheModel.SweepQueuesAll | rrdtool-1.4.5/src/rrd_daemon.c:786-846 | a sweep with age -1 queues every file with pending values, despite the jitter |
| CacheTimes.SweptExactly | rrdtool-1.4.5/src/rrd_daemon.c:777-792 | the sweep queues, behind the others, exactly the unqueued files with pending values: with a positive age those last flushed that long ago, otherwise or when the daemon is ending all |
| CacheTimes.RemovedExactly | rrdtool-1.4.5/src/rrd_daemon.c:793-803 | it removes exactly the unqueued files without pending values that were last flushed a flush interval ago or earlier |
| CacheTimes.IdleAgain | rrdtool-1.4.5/src/rrd_daemon.c:650-658 | a file whose batch was taken and that gets no values is removed exactly from a flush interval later on |
| CacheTimes.WroteFlushes | rrdtool-1.4.5/src/rrd_daemon.c:1483-1505 | a "wrote" record counts as a flush at the time of replay |
| CacheModel.ReplayUpdate | rrdtool-1.4.5/src/rrd_daemon.c:1415-1458 | the entry of an "update" record, if it is read back whole, replays to the same critical section, so to the same accepted prefix |
| CacheModel.ReplayWrote | rrdtool-1.4.5/src/rrd_daemon.c:1483-1505 | a "wrote" record, unescaped to the end of the line, replays to WROTE of its file |
| CacheModel.ReplayForget | rrdtool-1.4.5/src/rrd_daemon.c:1284-1291 | a "forget" record removes exactly the file that its raw name decodes to: the one forgotten exactly when its name needs no escaping, and otherwise one with a shorter name, if any |
| CacheModel.ReplayAnyCase | rrdtool-1.4.5/src/rrd_daemon.c:1663-1671 | the case of the command word makes no difference in replay |
| CacheModel.ReplayOthers | rrdtool-1.4.5/src/rrd_daemon.c:1748-1757 | no command but these three has an effect in replay |
| CacheModel.ForgetsAnother | rrdtool-1.4.5/src/rrd_daemon.c:1284-1291 | replaying the FORGET of "a b" removes "a" |
| CacheQueue.CacheTree.Unlink | rrdtool-1.4.5/src/rrd_daemon.c:669-679 | closing the links round an item leaves a well-formed list without it |
| CacheQueue.CacheTree.RemoveQueued | rrdtool-1.4.5/src/rrd_daemon.c:664-687 | taking out the item at a position keeps list, flags and counter in agreement |
| CacheQueue.CacheTree.RemoveFromQueue | rrdtool-1.4.5/src/rrd_daemon.c:664-687 | the queue loses exactly this item, the flag and the counter follow |
| CacheQueue.CacheTree.LinkHead | rrdtool-1.4.5/src/rrd_daemon.c:734-741 | the item becomes the head of a well-formed list, followed by the old list |
| CacheQueue.CacheTree.LinkTail | rrdtool-1.4.5/src/rrd_daemon.c:752-759 | the item becomes the tail, behind the old list |
| CacheQueue.CacheTree.Push | rrdtool-1.4.5/src/rrd_daemon.c:734-767 | an unqueued item becomes the head or the tail, the flag and the counter follow |
| CacheQueue.CacheTree.EnqueueCacheItem | rrdtool-1.4.5/src/rrd_daemon.c:717-770 | list shape, flags and counter are kept, and the cache becomes what the pure operation says |
| CacheQueue.CacheTree.WipeCiValues | rrdtool-1.4.5/src/rrd_daemon.c:650-658 | the item's values are gone, its flush time is set, everything else is kept |
| CacheQueue.CacheTree.TakeBatch | rrdtool-1.4.5/src/rrd_daemon.c:927-953 | a writer gets the head's non-empty values, and the cache loses them: the assertions cannot fail |
| CacheQueue.CacheTree.HandleWrote | rrdtool-1.4.5/src/rrd_daemon.c:1483-1505 | refines the pure WROTE |
| CacheQueue.CacheTree.DropItem | rrdtool-1.4.5/src/rrd_daemon.c:692-711 | an item that is not queued leaves the tree, all others stay |
| CacheQueue.CacheTree.RemoveItem | rrdtool-1.4.5/src/rrd_daemon.c:692-711 | refines the pure FORGET, freeing an item that may be queued |
| CacheQueue.CacheTree.FlushFile | rrdtool-1.4.5/src/rrd_daemon.c:1104-1130 | refines the pure FLUSH |
| CacheQueue.CacheTree.InsertItem | rrdtool-1.4.5/src/rrd_daemon.c:1393-1402 | a new item joins the tree, everything else is kept |
| CacheQueue.CacheTree.InsertOrKeep | rrdtool-1.4.5/src/rrd_daemon.c:1393-1413 | the new item joins the tree, unless another UPDATE has added one in the meantime, which is then used |
| CacheQueue.CacheTree.AppendValues | rrdtool-1.4.5/src/rrd_daemon.c:1415-1473 | the value loop appends exactly the accepted prefix, stops for the right reason and gives the answer of that case |
| CacheQueue.CacheTree.FinishUpdate | rrdtool-1.4.5/src/rrd_daemon.c:1415-1473 | from the item found or made on, refines the pure UPDATE and its answer |
| CacheQueue.CacheTree.UpdateKnown | rrdtool-1.4.5/src/rrd_daemon.c:1343-1473 | with a cached file the whole UPDATE is one critical section, that of the pure UPDATE; with another the first section changes nothing |
| CacheQueue.CacheTree.UpdateNew | rrdtool-1.4.5/src/rrd_daemon.c:1393-1473 | for a file not found at first, the section after the lock is taken again refines the pure UPDATE on whatever the cache is by then |
| CacheQueue.CacheTree.HandleUpdate | rrdtool-1.4.5/src/rrd_daemon.c:1346-1468 | refines the pure UPDATE and its answer, for known and new files |
| CacheQueue.CacheTree.VisitItem | rrdtool-1.4.5/src/rrd_daemon.c:777-806 | queues the item exactly when it is due, and marks it exactly when it is idle |
| CacheQueue.CacheTree.VisitAll | rrdtool-1.4.5/src/rrd_daemon.c:808-829 | the traversal queues the due items in order and collects exactly the idle ones |
| CacheQueue.CacheTree.RemoveAll | rrdtool-1.4.5/src/rrd_daemon.c:831-837 | exactly the items collected are freed, and the queue is as it was |
| CacheQueue.CacheTree.FlushOldValues | rrdtool-1.4.5/src/rrd_daemon.c:808-846 | refines the pure sweep; what is freed is never queued |
| Daemon.RunInv | rrdtool-1.4.5/src/rrd_daemon.c:901-987 | in every run of any number of threads, from any journal found at the start: for every cached file the accepted values are those settled before, the batches dequeued from its item, in order, and the pending ones; what a writer holds or writes is a batch exactly as it was dequeued; each dequeued batch is on disk once or still to be written |
| Daemon.AcceptedStampsIncrease | rrdtool-1.4.5/src/rrd_daemon.c:1441-1458 | in every run the stamps accepted for a cached file increase strictly |
| Daemon.StepConserved | rrdtool-1.4.5/src/rrd_daemon.c:941-953 | each single step keeps the accounting of accepted values against the batches dequeued |
| Daemon.StepDisk | rrdtool-1.4.5/src/rrd_daemon.c:955-969 | each single step keeps the accounting of those batches against writers and disk |
| Daemon.OnlyForgetDrops | rrdtool-1.4.5/src/rrd_daemon.c:786-803 | any step other than FORGET of a file, the idle purge included, drops no value of it: the values dequeued from its item and pending keep their order and only grow, or the item goes with none pending; and the invariant of the runs is kept |
| Daemon.EveryValueSomewhere | rrdtool-1.4.5/src/rrd_daemon.c:901-987 | at any moment of any run, each value accepted for a cached file is pending, in a batch of its present item that a writer has still to write or that is on disk, or recorded as written in the journal found at the start |
| Daemon.InitialInv | rrdtool-1.4.5/src/rrd_daemon.c:2104-2180 | however a daemon starts, also from the journals of one that crashed, the invariant holds |
| Restart.ReplayOk | rrdtool-1.4.5/src/rrd_daemon.c:2063-2088 | replaying any entries whatever keeps the queue free of duplicates and the stamps of each file, settled and pending, increasing up to its last one |
| Restart.ReplayAlike | rrdtool-1.4.5/src/rrd_daemon.c:2063-2088 | replaying them at another time and with other random numbers gives the same values and stamps |
| WriteOrder.WriteOrderly | rrdtool-1.4.5/src/rrd_daemon.c:955 | a write keeps the batches of a file in dequeue order exactly when none dequeued earlier is unwritten |
| WriteOrder.StepOrderly | rrdtool-1.4.5/src/rrd_daemon.c:901-987 | no other step disturbs the order |
| WriteOrder.InOrderExactly | rrdtool-1.4.5/src/rrd_daemon.c:941-969 | after any run the writes of a file are in dequeue order without gaps exactly when each was in turn |
| WriteOrder.OrderlyIsPrefix | rrdtool-1.4.5/src/rrd_daemon.c:941-969 | that order means that the batches written are a prefix of the batches dequeued |
| WriteOrder.DiskFollowsAcceptance | rrdtool-1.4.5/src/rrd_daemon.c:941-969 | if each write of a file is in turn, its values on disk are at any moment a prefix of those accepted since the start, in the order of acceptance |
| WriteOrder.OneThreadInTurn | rrdtool-1.4.5/src/rrd_daemon.c:901-987 | with one writer thread every write is in turn |
| WriteOrder.QuietInTurn | rrdtool-1.4.5/src/rrd_daemon.c:901-987 | so it is with any number of threads if UPDATEs wait for "wrote" records |
| Scenarios.LaterBatchOvertakes | rrdtool-1.4.5/src/rrd_daemon.c:941-955 | a run of eight steps with two threads that writes the later batch of a file first |
| Recovery.StepLaw | rrdtool-1.4.5/src/rrd_daemon.c:1978-2002 | one step and the replay of what it recorded keep the recovery law |
| Recovery.RunLaw | rrdtool-1.4.5/src/rrd_daemon.c:2004-2096 | in every disciplined run, from any journal, stopped anywhere: in flight plus pending equals lost plus replayed, and the stamps agree |
| Recovery.ExactIffNothingLost | rrdtool-1.4.5/src/rrd_daemon.c:1483-1505 | recovery of a file is exact exactly when nothing counts as lost |
| Recovery.WroteExactIff | rrdtool-1.4.5/src/rrd_daemon.c:955-969 | a "wrote" record leaves recovery exact exactly when nothing of the file is pending or otherwise in flight at that moment |
| Recovery.ExactThroughout | rrdtool-1.4.5/src/rrd_daemon.c:955-969 | the records of a file replay exactly after every beginning of a disciplined run if and only if each of its "wrote" records found nothing pending and no other batch in flight |
| Recovery.RunAlone | rrdtool-1.4.5/src/rrd_daemon.c:941-969 | if UPDATEs wait for "wrote" records, a file has one batch in flight at most and then nothing pending |
| Recovery.Recovery | rrdtool-1.4.5/src/rrd_daemon.c:2004-2096 | if moreover UPDATEs are short enough to be read back, reading the journals on disk yields, for every file, the values in flight followed by those pending, with the same last stamp |
| Scenarios.LateUpdateLost | rrdtool-1.4.5/src/rrd_daemon.c:955-969 | a run of six steps after which a pending value is not recovered |
| Journal.JournalReplay | rrdtool-1.4.5/src/rrd_daemon.c:2063-2088 | reading one of the journals in pieces of at most 4095 bytes replays exactly the pieces that end in a newline, behind what the journals before it gave |
| Journal.EntriesOfJoined | rrdtool-1.4.5/src/rrd_daemon.c:2063-2088 | each line of a journal gives one entry: the line, or what is left of it behind its last whole piece of 4095 bytes |
| Journal.ReadBackExactly | rrdtool-1.4.5/src/rrd_daemon.c:2010-2067 | the entries read are the records written exactly when every record has at most 4094 bytes |
| Journal.SaveRequest | rrdtool-1.4.5/src/rrd_daemon.c:1325-1333 | the copy of a request for the journal is the request, and stays inside its buffer exactly up to 4095 bytes |
| Journal.OverrunServed | rrdtool-1.4.5/src/rrd_daemon.c:222-223 | the read buffer lets a longer UPDATE through to that copy exactly if it has 4096 to 8184 bytes |
| Journal.UpdateRecordReadBack | rrdtool-1.4.5/src/rrd_daemon.c:1978-1990 | the record of an UPDATE is read back exactly if its text has at most 4087 bytes |
| Journal.RunReadBack | rrdtool-1.4.5/src/rrd_daemon.c:1978-2067 | the journal of a run reads back as the records written exactly when every UPDATE recorded has at most 4087 bytes: file names never make a record too long |
| Scenarios.LongRecordLost | rrdtool-1.4.5/src/rrd_daemon.c:2063-2088 | an UPDATE that fills the client's buffer, with 4088 bytes, is accepted and recorded, and replayed to nothing |
| Journal.CutLines | rrdtool-1.4.5/src/rrd_daemon.c:2063-2088 | of the text of some records cut off anywhere, the entries read are those of the first records, as many as fit |
| Journal.RunPrintable | rrdtool-1.4.5/src/rrd_daemon.c:1978-2002 | in every run no record holds a newline |
| Recovery.JournalWas | rrdtool-1.4.5/src/rrd_daemon.c:1978-2002 | every beginning of the records was all of them at some moment of the run |
| Recovery.TornJournal | rrdtool-1.4.5/src/rrd_daemon.c:2063-2088 | wherever the journal is cut off, replay yields for every file the values in flight and pending at the moment the last complete record was made, with the same last stamp |
| Recovery.CarriedOver | rrdtool-1.4.5/src/rrd_daemon.c:2104-2180 | a daemon started on the journals a crash left, cut off anywhere, goes on with every value in flight or pending when the last complete record was made: unless its file is forgotten, each is pending, with a writer or on disk at any later moment |
| Shutdown.FlushAllQueuesAll | rrdtool-1.4.5/src/rrd_daemon.c:1233-1242 | in any state of any run FLUSHALL leaves every file with pending values queued |
| Shutdown.RunDraining | rrdtool-1.4.5/src/rrd_daemon.c:891-907 | after the final sweep everything pending stays queued until it is taken |
| Shutdown.CleanShutdown | rrdtool-1.4.5/src/rrd_daemon.c:2782-2813 | once all writers have ended, queue and pending lists are empty and nothing is in flight; every value accepted for a cached file is on disk in a batch of its present item, or was recorded as written before the start; and every batch dequeued has been written once, as it was dequeued |
| WriteOrder.CleanShutdownInOrder | rrdtool-1.4.5/src/rrd_daemon.c:2782-2813 | the batches of a file are then on disk in dequeue order exactly when each write was in turn, and then the disk holds the values accepted since the start, all and in order |
| Responses.CountLines | rrdtool-1.4.5/src/rrd_daemon.c:564-578 | counts exactly the newline-terminated lines |
| LineText.LinesOfWhole | rrdtool-1.4.5/src/rrd_daemon.c:564-578 | text of whole lines is its lines joined |
| Responses.AutoPrinted | rrdtool-1.4.5/src/rrd_client.c:257 | `strtol` with base 0, which takes a leading 0 for octal or hexadecimal, reads every printed status back |
| Responses.AutoOther | rrdtool-1.4.5/src/rrd_client.c:257 | behind "0x" it reads base 16, behind another "0" base 8 |
| Responses.ResponseRead | rrdtool-1.4.5/src/rrd_client.c:229-303 | the reader's loop, error exits and the detection of the base included |
| Responses.GetLines | rrdtool-1.4.5/src/rrd_client.c:278-289 | the loop reads as many lines as were announced, or fails when the stream ends |
| Responses.ReadsOne | rrdtool-1.4.5/src/rrd_client.c:257-289 | reading a response takes exactly its lines off the stream, whatever follows |
| Responses.RepliesInStep | rrdtool-1.4.5/src/rrd_daemon.c:1803-1833 | every response announces exactly the lines that follow it; outside a batch each line is answered once, inside a batch not at all |
| Responses.ResponseSocket.AddResponseInfo | rrdtool-1.4.5/src/rrd_daemon.c:539-562 | info is collected, but not inside a batch |
| Responses.ResponseSocket.WriteOut | rrdtool-1.4.5/src/rrd_daemon.c:632-642 | partial writes send the text completely and in order |
| Responses.ResponseSocket.SendResponse | rrdtool-1.4.5/src/rrd_daemon.c:583-648 | what is sent and what is kept in the buffer, in and outside a batch |
| Responses.ResponseSocket.Reply | rrdtool-1.4.5/src/rrd_daemon.c:1142-1188 | info and response of a handler: one response with the lines of its info, or one report line, or nothing |
| Responses.ResponseSocket.BatchStart | rrdtool-1.4.5/src/rrd_daemon.c:1508-1520 | starting a batch sends one line and counts from zero |
| Responses.ResponseSocket.BatchDone | rrdtool-1.4.5/src/rrd_daemon.c:1523-1529 | ending a batch sends the number of report lines and the reports |
| Responses.ResponseSocket.Refuse | rrdtool-1.4.5/src/rrd_daemon.c:1822-1829 | a line is refused exactly when its command is unknown, not permitted or out of context, and is then answered by one error |
| Responses.ResponseSocket.Complain | rrdtool-1.4.5/src/rrd_daemon.c:583-648 | an error becomes one report line inside a batch, and one response outside |
| Responses.ResponseSocket.HandleRequest | rrdtool-1.4.5/src/rrd_daemon.c:1803-1833 | dispatch, permissions and contexts send nothing but the replies due, and close the connection exactly on QUIT, on unparsable lines and on an UPDATE that finds the daemon shut down |
| Responses.ResponseSocket.Session | rrdtool-1.4.5/src/rrd_daemon.c:2292-2297 | everything sent on a connection is the transcript of its lines |
| Responses.ClientStaysInStep | rrdtool-1.4.5/src/rrd_client.c:229-303 | for every sequence of commands the reader recovers exactly the responses sent, with nothing left over |
| Responses.FailingIs | rrdtool-1.4.5/src/rrd_daemon.c:1819-1820 | the command numbers reported increase and are exactly those of the failing commands |
| Responses.ReportsAre | rrdtool-1.4.5/src/rrd_daemon.c:596-619 | report i is the number and the message of the i-th failing command |
| Responses.BatchReport | rrdtool-1.4.5/src/rrd_daemon.c:1508-1529 | a batch is answered once at its start and once at its end, with one report per failing command |
| Responses.BatchRead | rrdtool-1.4.5/src/rrd_client.c:229-303 | the client reads both answers of a batch, and from each report line the number of the command that failed |
| Contexts.BulkLoad | rrdtool-1.4.5/src/rrd_daemon.c:1537-1541 | a batch of permitted UPDATE, FLUSH and FORGET lines is answered by their handlers: its reports are about exactly the commands that failed there, in order, with number and message |
| Contexts.BulkSuccess | rrdtool-1.4.5/src/rrd_daemon.c:1523-1529 | if all of them succeed, no error is reported |
| Contexts.RefusedInside | rrdtool-1.4.5/src/rrd_daemon.c:1748-1757 | every other command but the end of the batch and QUIT is refused in a batch and counts as failed |
| Contexts.AnsweredOutside | rrdtool-1.4.5/src/rrd_daemon.c:1548-1640 | outside, the eight commands of the client are answered by their handlers |
| Contexts.RefusedOutside | rrdtool-1.4.5/src/rrd_daemon.c:1748-1757 | WROTE and "." are refused there |
| Contexts.Ends | rrdtool-1.4.5/src/rrd_daemon.c:1532-1535 | QUIT, and an UPDATE that finds the daemon shut down, end the connection in both |
| Contexts.Denied | rrdtool-1.4.5/src/rrd_daemon.c:1684-1712 | without permission every command is answered alike, whatever it is |
| Responses.ReportParses | rrdtool-1.4.5/src/rrd_daemon.c:605 | a report line is read back as its command number and its message |
| Fetch.ChooseRra | rrdtool-1.4.5/src/rrd_fetch.c:270-340 | fails exactly when no archive has the function; otherwise picks the first of the best archives |
| Fetch.BestUnique | rrdtool-1.4.5/src/rrd_fetch.c:270-340 | that choice is unique |
| ArchiveChoice.CoversExactly | rrdtool-1.4.5/src/rrd_fetch.c:274-294 | an archive counts as covering the start exactly when every later row up to its newest one is stored |
| ArchiveChoice.ChosenIs | rrdtool-1.4.5/src/rrd_fetch.c:270-340 | if any archive with the function covers the start, the one chosen does, with the step nearest to the one asked for among those; otherwise none reaches further back, and ties go by the step; of several the first |
| ArchiveChoice.StoredRow | rrdtool-1.4.5/src/rrd_fetch.c:373-394 | a stored time is one for which a fetch reads the row of the ring that is as many rows back |
| Fetch.Offsets | rrdtool-1.4.5/src/rrd_fetch.c:343-405 | the two offsets leave (end - start) / step rows, and the code seeks exactly when the window touches the archive |
| Fetch.RowTime | rrdtool-1.4.5/src/rrd_fetch.c:373-394 | row m of the result is the row for start + (m + 1) * step |
| Fetch.TimeOfRow | rrdtool-1.4.5/src/rrd_fetch.c:373-394 | counting rows from the oldest and dividing times by the step name the same ring row |
| Fetch.RingShift | rrdtool-1.4.5/src/rrd_fetch.c:431-463 | moving on in the ring wraps at most once within one turn |
| Fetch.BaseRow | rrdtool-1.4.5/src/rrd_fetch.c:368-371 | where the rows of the chosen archive begin in the file |
| Fetch.CopyRows | rrdtool-1.4.5/src/rrd_fetch.c:386-467 | with one seek and one more on wrapping, every row emitted is the right ring row, or unknown outside the archive |
| Fetch.RrdFetchFn | rrdtool-1.4.5/src/rrd_fetch.c:191-470 | the chosen archive, the widened window, exactly one row per step of it and none if it ends before it starts, each the right row for its time, and at most two seeks |
| Fetch.ReadyToReduce | rrdtool-1.4.5/src/rrd_fetch.c:343-364 | the window fetched covers the one asked for by less than a step before and at most one behind, is never empty and consists of whole steps of the archive |
| ArchiveUpdate.RowBack | rrdtool-1.4.5/src/rrd_fetch.c:373-394 | the row for the time i steps before the newest is i rows back from the current row, and nothing older is stored |
| ArchiveUpdate.RowsDue | rrdtool-1.4.5/src/rrd_update.c:1170-1222 | the steps counted, and from them the rows of an archive, are the boundaries passed since the last update |
| ArchiveUpdate.WriteToRra | rrdtool-1.4.5/src/rrd_update.c:1917-1963 | the rows due become the newest of the ring, what was there moves back as far as it fits, and no other row of the file changes; the times reported for them |
| ArchiveUpdate.UpdateArchives | rrdtool-1.4.5/src/rrd_update.c:1425-1441 | every archive of the file gets its rows |
| ArchiveUpdate.FetchedAfterUpdate | rrdtool-1.4.5/src/rrd_update.c:1917-1963 | after an update a fetch finds the new rows at the times that follow the newest one so far, older rows at their own, and those that no longer fit nowhere |
| ArchiveUpdate.ReportedExactly | rrdtool-1.4.5/src/rrd_update.c:1951-1956 | of the rows written at once the first is reported for the time at which a fetch finds it, all others a step late |
| Fetch.DumpDatabase | rrdtool-1.4.5/src/rrd_dump.c:411-444 | row x dumped is the x-th oldest row, with its time |
| Fetch.DumpedOnce | rrdtool-1.4.5/src/rrd_dump.c:414-421 | no ring row is dumped twice |
| Fetch.DumpAgreesWithFetch | rrdtool-1.4.5/src/rrd_dump.c:411-444 | dump and fetch give every stored row the same time |
| Reduce.ConsolidateIs | rrdtool-1.4.5/src/rrd_graph.c:737-786 | a consolidated value is unknown only if all its values are; minimum and maximum are attained and bound all known values |
| Reduce.AverageAndLast | rrdtool-1.4.5/src/rrd_graph.c:733-787 | an average is the sum of the known values over their number and lies between their bounds, and a last value is the last known one |
| Reduce.RowCount | rrdtool-1.4.5/src/rrd_graph.c:681-713 | the rows left after both cuts are a multiple of the factor, -1 times it exactly when the window has no coarse boundary |
| Reduce.SanityCheck | rrdtool-1.4.5/src/rrd_graph.c:681-725 | with the unsigned counter the check passes exactly when the window has a coarse boundary or the factor is a power of two |
| Reduce.NarrowWindows | rrdtool-1.4.5/src/rrd_graph.c:718-725 | two windows without a boundary, one stopped and one not |
| Reduce.BoundaryExists | rrdtool-1.4.5/src/rrd_graph.c:673-682 | the condition on the window means that it contains a multiple of the new step |
| Reduce.NewStepLeast | rrdtool-1.4.5/src/rrd_graph.c:649-653 | the new step is the least multiple of the old one that is not below the step asked for |
| Reduce.ReduceCell | rrdtool-1.4.5/src/rrd_graph.c:733-787 | the accumulating loop computes the consolidated value |
| Reduce.ReduceRow | rrdtool-1.4.5/src/rrd_graph.c:732-791 | writing at or below the rows being read destroys no row still to be read |
| Reduce.FillRow | rrdtool-1.4.5/src/rrd_graph.c:698-699 | a cut row becomes unknown in every column, other rows are kept |
| Reduce.CombineRows | rrdtool-1.4.5/src/rrd_graph.c:728-791 | every whole coarse row is written in place; with a wrapped counter nothing is |
| Reduce.ReduceData | rrdtool-1.4.5/src/rrd_graph.c:640-797 | exactly (end - start) / step rows result, each consolidated from its interval or unknown where the window cuts it, if and only if the window has a coarse boundary |
| DataFetch.Table | rrdtool-1.4.5/src/rrd_fetch.c:346-366 | the rows fetched lie in a table with room for one row more |
| DataFetch.WantedIsCoarse | rrdtool-1.4.5/src/rrd_graph.c:640-797 | a coarse row consolidates exactly the rows that belong to its times, or is unknown where the fetched window cuts it |
| DataFetch.FetchForGraph | rrdtool-1.4.5/src/rrd_graph.c:887-908 | fetching and consolidating together: rows that are fine enough are delivered as they are; otherwise the window is widened to whole coarse steps, the program stops exactly without a boundary and a power of two, and in a window with a boundary every row delivered is the consolidation of the values stored for its times |
| LeastSquares.DenominatorSign | rrdtool-1.4.5/src/rrd_graph.c:5101-5112 | the divisor of the slope is zero exactly with fewer than two known samples |
| LeastSquares.ErrorsFromSums | rrdtool-1.4.5/src/rrd_graph.c:5101-5110 | the five sums determine the squared error of every line |
| LeastSquares.NormalEquations | rrdtool-1.4.5/src/rrd_graph.c:5112-5113 | slope and intercept solve the normal equations |
| LeastSquares.Optimal | rrdtool-1.4.5/src/rrd_graph.c:5112-5113 | every other line has a strictly larger sum of squared errors |
| LeastSquares.LeastSquaresLine | rrdtool-1.4.5/src/rrd_graph.c:5088-5134 | the loop over one column of the data returns the unique best line, whenever two samples are known |
| LeastSquares.ColumnOfTable | rrdtool-1.4.5/src/rrd_graph.c:5088-5100 | the values fitted are those of one data source, row by row |
| HoltWinters.OrderIndependence | rrdtool-1.4.5/src/rrd_hw_update.c:38-363 | with known coefficients every good index order gives the results computed from the old coefficients alone |
| HoltWinters.ExactlyWhenIndependent | rrdtool-1.4.5/src/rrd_hw_update.c:137-224 | the exact condition under which the order makes no difference |
| HoltWinters.DependsOnOrder | rrdtool-1.4.5/src/rrd_hw_update.c:66-84 | otherwise two orders store different values |
| HoltWinters.GoodLayoutsExactly | rrdtool-1.4.5/src/rrd_hw_update.c:393-442 | the layouts without surprises are exactly those with FAILURES not between SEASONAL and DEVSEASONAL |
| HoltWinters.BetweenReadsWrongDeviation | rrdtool-1.4.5/src/rrd_hw_update.c:393-405 | with FAILURES in between a violation is missed |
| HoltWinters.CreatedLayoutIsGood | rrdtool-1.4.5/src/rrd_create.c:647-688 | the layout rrdtool creates is a good one |
| HoltWinters.FailureHistory | rrdtool-1.4.5/src/rrd_hw_update.c:458-472 | over whole runs from an erased history the window holds the last flags newest first, and the output is 1 exactly when their count reaches the threshold |
| HoltWinters.RunShifts | rrdtool-1.4.5/src/rrd_hw_update.c:458-472 | one step pushes one flag, in any index order |
| HoltWinters.CdpAreas.EraseViolations | rrdtool-1.4.5/src/rrd_hw.c:85-124 | all flags of the window are cleared |
| HoltWinters.CdpAreas.Hwpredict | rrdtool-1.4.5/src/rrd_hw_update.c:38-115 | prediction, next coefficients and their "last" copies, overwritten in place, are those of the step whose order independence is proved |
| HoltWinters.CdpAreas.Seasonal | rrdtool-1.4.5/src/rrd_hw_update.c:117-230 | likewise for the seasonal coefficient, taken from the current or the "last" copies by comparing indices |
| HoltWinters.CdpAreas.Devpredict | rrdtool-1.4.5/src/rrd_hw_update.c:232-260 | likewise for the deviation stored |
| HoltWinters.CdpAreas.Devseasonal | rrdtool-1.4.5/src/rrd_hw_update.c:262-367 | likewise for the deviation, with the prediction rebuilt from the "last" copies |
| HoltWinters.CdpAreas.ShiftViolations | rrdtool-1.4.5/src/rrd_hw_update.c:458-466 | shifting in place keeps every flag but the oldest, and the count is that of the new window |
| HoltWinters.CdpAreas.Failures | rrdtool-1.4.5/src/rrd_hw_update.c:369-475 | likewise for the flag, the shifted window and the output |
| HoltWinters.CdpAreas.RunStep | rrdtool-1.4.5/src/rrd_hw.c:438-494 | one step dispatches to every archive in index order |
| ForecastStep.AdditiveStep | rrdtool-1.4.5/src/rrd_hw_math.c:26-53 | in a whole step with known coefficients, additive, each is corrected by its share of the error of the forecast: the level by alpha of it, the slope by beta of the change of the level beyond the slope, the seasonal coefficient by gamma of what alpha leaves, the deviation by gamma towards its size; the value is a violation exactly if the error leaves the band |
| ForecastStep.MultiplicativeStep | rrdtool-1.4.5/src/rrd_hw_math.c:75-110 | multiplicative, level and seasonal coefficient are corrected by the error over the other factor, and become unknown if that is not positive |
| ForecastStep.ExactForecast | rrdtool-1.4.5/src/rrd_hw_update.c:85-110 | a value exactly as forecast, right after a known one, keeps slope and seasonal coefficient, moves the level by the slope, shrinks the deviation, and is no violation |
| ForecastStep.MissingStep | rrdtool-1.4.5/src/rrd_hw_update.c:85-110 | a missing value keeps all coefficients, moves the next forecast on by the slope, and is a violation |
| ForecastStep.FirstValue | rrdtool-1.4.5/src/rrd_hw_update.c:66-84 | the first known value becomes the level, with slope 0 |
| ForecastStep.FirstSeason | rrdtool-1.4.5/src/rrd_hw_update.c:155-200 | with a level, the first value at a place of the season gives its coefficient there, while level and slope wait |
| ForecastStep.FirstDeviation | rrdtool-1.4.5/src/rrd_hw_update.c:335-350 | the first error there is the deviation, and no violation |
| Smoother.FifoQueue.IsEmpty | rrdtool-1.4.5/src/rrd_hw.c:534-538 | true exactly for an empty or a full queue |
| Smoother.FifoQueue.Push | rrdtool-1.4.5/src/rrd_hw.c:540-546 | appends, wrapping in the ring |
| Smoother.FifoQueue.Pop | rrdtool-1.4.5/src/rrd_hw.c:548-553 | takes the oldest value, wrapping in the ring |
| Smoother.MyModRow | rrdtool-1.4.5/src/rrd_hw.c:497-512 | always congruent to the index, and a valid row exactly unless the index is a negative multiple of the row count |
| Smoother.MyModNear | rrdtool-1.4.5/src/rrd_hw.c:497-512 | which row a window position is, for the positions the smoother uses |
| Smoother.OffsetIs | rrdtool-1.4.5/src/rrd_hw.c:144-149 | the window has the greatest odd number of rows that exceeds the part of the period asked for by at most one |
| Smoother.FirstTerms | rrdtool-1.4.5/src/rrd_hw.c:203-210 | the queue holds the first 2 * offset terms and the running sum is their sum |
| Smoother.SmoothColumn | rrdtool-1.4.5/src/rrd_hw.c:212-235 | the running sum always equals the sum of the queue, and the column becomes the smoothed one; other columns are kept |
| Smoother.SmoothedAt | rrdtool-1.4.5/src/rrd_hw.c:212-235 | every centre is the mean of its window, wrapped terms being already smoothed |
| Smoother.SmoothedUnique | rrdtool-1.4.5/src/rrd_hw.c:212-235 | no other column has that property |
| Smoother.EarlyCentres | rrdtool-1.4.5/src/rrd_hw.c:126-127 | centres whose window does not wrap forward are circular means of the original values |
| Smoother.CircularExactly | rrdtool-1.4.5/src/rrd_hw.c:126-127 | all centres are, exactly when the first offset rows are their own circular means |
| Smoother.CircularFails | rrdtool-1.4.5/src/rrd_hw.c:126-127 | a column of two rows whose second centre is not its circular mean |
| Smoother.StaysInRange | rrdtool-1.4.5/src/rrd_hw.c:212-235 | smoothing never leaves the range of the column |
| Smoother.ReadAll | rrdtool-1.4.5/src/rrd_hw.c:170-193 | the rows are read, or an unknown value is found |
| Smoother.SmoothAll | rrdtool-1.4.5/src/rrd_hw.c:195-238 | every column is smoothed, and its mean is its baseline |
| Smoother.WriteAll | rrdtool-1.4.5/src/rrd_hw.c:260-307 | the rebased columns are written back, and the intercepts raised |
| Smoother.ApplySmoother | rrdtool-1.4.5/src/rrd_hw.c:128-312 | nothing changes without a window, with an unknown value or with a broken dependency; otherwise every column is smoothed and, for SEASONAL, rebased |
| Smoother.NeutralMean | rrdtool-1.4.5/src/rrd_hw.c:260-271 | rebased coefficients average to 0 or, multiplicative, to 1 |
| Smoother.ForecastKept | rrdtool-1.4.5/src/rrd_hw.c:260-272 | what the intercept and the coefficient forecast is kept for additive ones; for multiplicative ones exactly under the stated condition if the baseline is positive, and otherwise the coefficient becomes unknown while the intercept is raised all the same |
| GetOpt.Scanner.Exchange | rrdtool-1.4.5/src/rrd_getopt.c:306-352 | terminates and swaps the two adjacent blocks, each in its own order, and moves the bounds |
| GetOpt.SwapRanges | rrdtool-1.4.5/src/rrd_getopt.c:325-329 | the inner loop swaps two ranges of equal length and touches nothing else |
| GetOpt.ExchangeKeeps | rrdtool-1.4.5/src/rrd_getopt.c:306-352 | exchanging keeps the partition the scan is heading for |
| GetOpt.Scanner.Permute | rrdtool-1.4.5/src/rrd_getopt.c:498-524 | exchanging and skipping keep options and non-options in order |
| GetOpt.Scanner.NextElement | rrdtool-1.4.5/src/rrd_getopt.c:498-551 | the next option element, or the end with the vector partitioned |
| GetOpt.Scanner.ShortOption | rrdtool-1.4.5/src/rrd_getopt.c:708-873 | one short option with its argument, and where the scan then stands |
| GetOpt.Scanner.LongOption | rrdtool-1.4.5/src/rrd_getopt.c:576-702 | a long option element, with the element taken for its argument |
| GetOpt.Scanner.GetOpt | rrdtool-1.4.5/src/rrd_getopt.c:467-873 | one call returns the next of the options due and keeps the partition |
| GetOpt.ScanAll | rrdtool-1.4.5/src/rrd_getopt.c:402-466 | scanning to -1 leaves the program name, the options, the rest, with `optind` at the boundary, and returns the options of the original vector |
| GetOpt.PartitionIsStable | rrdtool-1.4.5/src/rrd_getopt.c:402-466 | each side keeps its own order and no element is lost |
| GetOpt.ScannedAgain | rrdtool-1.4.5/src/rrd_getopt.c:498-551 | scanning the permuted vector again keeps it, exactly unless the last option lacked its argument and there are non-options |
| OptionStrings.KindsReadBack | rrdtool-1.4.5/src/rrd_getopt.c:708-840 | an option string written for a list of options is read back as that list: every character has the kind listed, all others are unknown |
| OptionStrings.RequiredTakes | rrdtool-1.4.5/src/rrd_getopt.c:853-869 | a required argument is the rest of the element, or the next element if nothing is left; at the end of the vector it is reported as missing |
| OptionStrings.OptionalTakes | rrdtool-1.4.5/src/rrd_getopt.c:840-851 | an optional argument is the rest of the element and never the next one |
| OptionStrings.OthersTakeNothing | rrdtool-1.4.5/src/rrd_getopt.c:708-836 | other options take nothing, and what is left of the element is scanned as if it stood alone |
| OptionStrings.NonOptionsAre | rrdtool-1.4.5/src/rrd_getopt.c:539-551 | a non-option is an element that is not a dash and more |
| OptionStrings.StopsAtDashes | rrdtool-1.4.5/src/rrd_getopt.c:526-537 | behind two dashes nothing is an option |
| Diff.Scan | rrdtool-1.4.5/src/rrd_diff.c:50-67 | finds the digits and the sign |
| Diff.Subtract | rrdtool-1.4.5/src/rrd_diff.c:72-103 | the borrow loop leaves the digits of the difference and the borrow |
| Diff.Complement | rrdtool-1.4.5/src/rrd_diff.c:104-114 | the second pass leaves the ten's complement |
| Diff.Atof | rrdtool-1.4.5/src/rrd_diff.c:115-117 | the number the result buffer denotes, leading blanks skipped |
| Diff.Difference | rrdtool-1.4.5/src/rrd_diff.c:83-117 | a borrow is left exactly when the difference is negative, and the digits then denote its absolute value |
| Diff.RrdDiff | rrdtool-1.4.5/src/rrd_diff.c:41-123 | for readings of up to 28 digits exactly their difference, both signs included, or NaN exactly when they cannot be compared; a write behind the buffer exactly for comparable ones of 29 or 30 digits |
| Diff.ReadingIs | rrdtool-1.4.5/src/rrd_diff.c:50-67 | a reading is the first run of digits of a text, negative exactly if a minus sign stands anywhere in front of it |
| Diff.OutcomeIs | rrdtool-1.4.5/src/rrd_diff.c:68-123 | the result for two texts with numbers in them, in terms of the numbers and their lengths |
| Diff.NoReading | rrdtool-1.4.5/src/rrd_diff.c:68-69 | without a digit in either text there is no difference |
| Diff.OverrunAt29 | rrdtool-1.4.5/src/rrd_diff.c:72-81 | two readings of 29 digits that pass the length check and overrun the buffer |
| Diff.Blank | rrdtool-1.4.5/src/rrd_diff.c:77-81 | the first writes of the buffer, each inside it, exactly when it has m + 3 cells |

## Left out

- Parsing and consolidating new values in `rrd_update.c` (`update_pdp_prep`, `update_cdp_prep`) and the calculator are not part of this model: the daemon's write to disk is handing a batch over, and `ArchiveUpdate` is given the consolidated row and the filler row of each archive.
- ArchiveUpdate.UpdateArchives: seasonal archives that skip the rows of a longer gap are not modelled; `ArchiveUpdate` writes all rows due.
- Sockets, `poll`, signals, pid files, options, permissions of a socket and path checks: who may do what is a parameter of a line.
- The recovery theorems assume no idle purge, since purges are not recorded. Records are on disk as `fprintf` was given them, or cut off by a crash. One daemon writes one journal file, and journals of earlier daemons are kept: rotation, which removes the oldest after a flush of everything, is not modelled.
- CacheQueue.CacheTree.FlushFile: the code then waits for a condition of the item, which other writes of the same file also signal; that it is woken is not stated.
- An UPDATE of an uncached file that gets there in the last phase of a shutdown leaves the cache lock held in the code, and is admitted like any other by `Daemon`.
- Memory allocation failure, failing reads, writes and seeks, locale, the width of `time_t` and of `long`, and the saturation of `strtol`.
- Responses longer than the 4096-byte buffers are truncated in the code; here they have no limit.
- Journal.SaveRequest: stops where the code writes behind its buffer, and `Daemon` admits no UPDATE of that length; what happens after that is not modelled.
- Floating-point rounding and infinities: `real` is exact, and a division by zero is NaN.
- NUL bytes inside requests, which end a C string early.
- Fetch.RrdFile: positions count whole rows instead of bytes; every seek and read of the code is at a row.
- Fetch.RrdFetchFn: for a window that ends before it starts the code computes the size of its buffer with unsigned numbers that wrap, and asks for that much memory; the model gives such a window no rows. `rrd_fetch` and `rrd_graph` refuse such windows before.
- Reduce.ReduceData: the buffer is a table of rows instead of one pointer moving through it; a window without a boundary needs a table of two rows. A fetched table always has them, since `rrd_fetch_fn` allocates one row more than it fills (`DataFetch`).
- DataFetch.FetchForGraph: windows that do not end before they start, as `rrd_graph` demands, and times and steps that fit their C types.
- Smoother.SmoothColumn: one data source after the other, where the code does all data sources for each row; they do not influence one another.
- GetOpt.ScanAll: only the permuting order, which all programs of the repository use; option strings that begin with `+` or `-` choose another order, and ones with `W;` another kind of option.
- GetOpt.Scanner.LongOption: whether a long option takes the next element is a parameter; matching names against the table, its error messages, `W;` options, `getopt_long_only` and the two other orders of scanning are not modelled.
- Diff.RrdDiff: stops where the code writes behind its buffer, so what happens after that is not modelled; and it leaves its arguments alone, where the code cuts them off behind their digits.
- Responses.ResponseSocket.HandleRequest: what a handler answers is a parameter, one line of message and whole lines of info, as all handlers of the code give.
- How good the Holt-Winters forecasts are: only what is stored, and in which order, is stated.
- The correlation coefficient of `VDEF_LSLCORREL` and the percentile definitions, which need square roots and an external sort.
- The PHP, Python and shell parts of the repository, `rrd_cgi.c`, `rrd_fetch_libdbi.c`, drawing, layout and calendar arithmetic.
