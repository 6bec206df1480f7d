# Verified model of the aesdchar driver, its lock protocol, and the intrusive lists of the server

The project models four parts of the repository and proves properties of them with Dafny 4.11.
`dafny verify dfyconfig.toml` checks everything.

**The character device.** `/dev/aesdchar` keeps the last ten newline-terminated write commands in a
ring of ten slots and shows readers their concatenation. The code reaches that string through
wrap-around indices, a cached size, stale slots, a copy helper that handles one side of the array's
end at a time, a partial entry, and a position that an ioctl leaves for one later read.

- `Bytes.dfy`: byte strings, and lists of them read as one flat string.
- `CircularBuffer.dfy`: the ring as a class over a ten-element array. A ghost `log` of all entries
  added since the last reset fixes indices, flag, cached size and live slots; other slots are
  arbitrary. Find and the read helper keep their loops.
- `DeviceModel.dfy`: `Dev`, the device in terms of byte strings only (log, unterminated tail, pending
  seek), and `Slotted`, which adds the contents of all ten slots, because find and the ioctl look at
  slots that were never written. `Device.dfy`: the class with the source's fields; each call is proved
  to do what `Slotted` does, on any slot contents.
- `Writes.dfy`, `Runs.dfy`, `Reads.dfy`: laws of the device over whole runs, and when the dead slots
  make no difference. `Laws.dfy`: what calls and runs do in the numbers of the source (byte 10, ten
  slots, 2^64, 2^63), independent of the definitions. `DeviceRuns.dfy`: the class over whole runs,
  flush compared with a new device, and a file read to its end.

**The lock protocol.** `Locking.dfy` is a transition system for any number of readers and writers,
under every schedule, with one step between any two points at which another thread can interfere;
the unlocked accesses (the size of the partial entry at main.c:205 and `total_size` at main.c:185) are
steps of their own. A thread that is about to leave its buffers makes no step, so what is proved is
about all schedules up to the first undefined access. `LockOutcomes.dfy` and `LockReaders.dfy` say
which outcomes can happen, and exactly when; `LockChecks.dfy` what the two calls of `mutex_is_locked`
decide, and that schedules end and are never stuck.

**The lists of `queue.h`.** `Chains.dfy` has what the queues share; `Tailq.dfy`, `Circleq.dfy`,
`Stailq.dfy`, `Slist.dfy`: the macros as methods that rewrite heap cells. The address of a next cell
is modelled by the object the cell is in, so the casts of `TAILQ_LAST` and `TAILQ_PREV`, which read an
entry as a head, are ordinary field accesses. A `modifies` clause names whole links, and those that
the macro may write: `Stailq.InsertAfter` and `Stailq.RemoveAfter` name the head even where its tail
pointer stays, and `Server.Sweep` names all listed entries.

**The server's threads.** `Server.dfy`: the list of threads with sweep, join and shutdown.

Results about the code that are not what its comments suggest:

- The read helper stays inside its buffers exactly under `ReadWindow`
  (`HelperSafeExactlyInWindow`, `CanReadExactly`); single-byte reads, and reads from an entry's start,
  always satisfy it.
- The precondition of `AesdDevice.Read` is exact: `StartSafeExactly`. `ReadBeyondEntry` is a device and
  a read outside of it: one write of two bytes, then two bytes from position 1.
- Find adds up the sizes of all ten slots, also of slots that were never written. `FindAcceptsLiveExactly`
  says for which slot contents it accepts all live positions; when it refuses one, aesd_read starts
  over at slot 0. `ContentDecidesExactly`: what reads return is decided by the content, not by dead
  slots, if and only if find accepts every position; `StaleSlotsCanBeSeen` gives two devices with the
  same two bytes of content that answer the same read differently. `FlushIsReset` says what a flushed
  and a new device answer in every case, and that the answers are the same on regular runs;
  `SmallIsRegular` makes reads regular while the sizes do not wrap.
- The ioctl numbers commands by slot. `SeekByAgeExactly`: that is the order of age for all logs of a
  length exactly when `out_offs` is 0. `MisnumberedLog` gives a counterexample for every other length.
  `SeekHitsExactly` says by how much the position is off for every live byte.
- -ENOMEM does not mean "not written" or "not read". `TakenButNoMemExactly`, `CopiedButNoMemExactly`: for
  every writer with something to write, and every reader inside the data, there is a schedule that does
  the work under the mutex, consumes a pending seek, and returns -ENOMEM, if and only if the thread is
  not alone.
- A reader looks at the size once more after it has released the mutex. `ReadersExactly`: for a given
  device and m writers, all readers that deliver have exactly the bytes and the position of a serial
  read, for all slot contents, calls and schedules, if and only if m is 0, or the commands in the log
  and m are together at most ten and a pending seek is harmless (`SeekHarmless`: it is inside the data,
  or the data it may be behind cannot grow past it). Otherwise bytes can be lost (`BytesLost`), or
  delivered from a position that the data has meanwhile overtaken (`SeekOvertaken`).
- A writer sizes its buffer before it has the mutex. `OverflowExactly`: the joined bytes can overflow it
  if and only if another writer's chunk is not empty, does not end in a newline, and makes the partial
  entry longer than it was left (`Outgrows`): because the entry is in use, or by its own length, or with
  the help of a third writer.
- The server's completion test is an assignment. The accounting is proved for any outcome of the test;
  `AsWritten` says what the constant true does.

## Model

| member | source | states |
|---|---|---|
| CircularBuffers.CircularBuffer.AddEntry | aesd-char-driver/aesd-circular-buffer.c:95-129 | one entry more in the log; one slot overwritten; `in_offs` is the number of commits modulo 10, `full` holds from ten on, `out_offs` follows; `total_size` is the live size, and the slots hold the last ten |
| CircularBuffers.LiveAfterAdd | aesd-char-driver/aesd-circular-buffer.c:97-128 | the live entries after an addition are those before without the oldest of ten, plus the new one |
| CircularBuffers.SizeAfterAdd | aesd-char-driver/aesd-circular-buffer.c:97-119 | and the live size changes by the new entry's size less that of the oldest of ten |
| CircularBuffers.HoldsLastAfterAdd | aesd-char-driver/aesd-circular-buffer.c:103-120 | overwriting the slot at `in_offs` keeps each of the last ten entries in its slot |
| CircularBuffers.CircularBuffer.Reset | aesd-char-driver/main.c:334-337 | whatever the slots hold, the ring is valid and empty |
| CircularBuffers.CircularBuffer.Init | aesd-char-driver/main.c:435-444 | a valid empty ring with arbitrary slot contents |
| CircularBuffers.LiveIsWalkPrefix | aesd-char-driver/aesd-circular-buffer.c:50-75 | walking from `out_offs` with wrap-around meets the live entries first, oldest first, and only them when the ring is full |
| CircularBuffers.CircularBuffer.CountChars | aesd-char-driver/aesd-circular-buffer.c:44-49 | the sum of all ten sizes modulo 2^64 |
| CircularBuffers.CircularBuffer.FindEntryOffsetForFpos | aesd-char-driver/aesd-circular-buffer.c:39-86 | found exactly below the wrapped sum; then the sizes of the slots passed plus the byte offset are the position, and the byte is in the slot; the out-parameter is left alone for position 0 and for NULL |
| DeviceModel.FoundStart | aesd-char-driver/aesd-circular-buffer.c:65-85 | for a position inside the live data, the slot found is live and is the unique one; otherwise it is a dead slot of a ring that is not full |
| CircularBuffers.FindAcceptsLiveExactly | aesd-char-driver/aesd-circular-buffer.c:47-63 | every live position is accepted if and only if there is at most one byte or the wrapped sum of all sizes is not below the live size |
| CircularBuffers.FindCanRefuseLive | aesd-char-driver/main.c:441-444 | contents of uninitialised slots for which a live position is refused |
| CircularBuffers.CircularBuffer.ReadHelper | aesd-char-driver/aesd-circular-buffer.c:143-183 | in the window: exactly min(count, bytes of the segment behind the offset) bytes, equal to that part of the segment's concatenation, rest of the buffer untouched, all accesses in bounds |
| CircularBuffers.CopyBytes | aesd-char-driver/aesd-circular-buffer.c:169-173 | the inner loop puts a range of one entry right behind the bytes delivered so far |
| CircularBuffers.HelperRound | aesd-char-driver/aesd-circular-buffer.c:154-180 | one round stays inside entry and output and continues the concatenation |
| CircularBuffers.HelperSafeExactlyInWindow | aesd-char-driver/aesd-circular-buffer.c:160-173 | the helper's accesses are in bounds if and only if `ReadWindow` holds |
| CircularBuffers.SegmentIsLive | aesd-char-driver/main.c:135-154 | the slots handed to the helper are consecutive live entries up to the array's end or the newest |
| Device.AesdDevice.InitModule | aesd-char-driver/main.c:417-444 | the device is empty, with whatever the slots contain |
| Device.AesdDevice.Flush | aesd-char-driver/main.c:319-339 | the device is empty, and the slots still hold what they did |
| Device.AesdDevice.AdjustFileOffset | aesd-char-driver/main.c:302-317 | the pending position is the size of the physical slots before the command, plus the offset; nothing else changes |
| Device.AesdDevice.Write | aesd-char-driver/main.c:194-283 | the chunk is joined to the tail and committed, to the slot that is next, exactly if it then ends in a newline; returns the count |
| Device.AesdDevice.Store | aesd-char-driver/main.c:248-267 | joined bytes become the tail or a new command |
| Device.Join | aesd-char-driver/main.c:232-244 | the copy loops leave the partial entry followed by the new data |
| Device.AesdDevice.Read | aesd-char-driver/main.c:60-192 | for any slot contents: return value, bytes, file position and pending seek are those of a read of the content, cut at the array's end, or, if find refuses the position, of a read from slot 0 |
| Device.AesdDevice.CopyOut | aesd-char-driver/main.c:111-154 | the bytes copied before the unlock, also for a start behind the data |
| Device.AesdDevice.FindStart | aesd-char-driver/main.c:111-131 | the slot and byte for the start position: position 0, found inside or outside the live data, or refused and then slot 0 |
| DeviceModel.StartServes | aesd-char-driver/main.c:135-154 | from any such start the helper's window holds and what it owes is what a read copies |
| DeviceModel.RegularRead | aesd-char-driver/main.c:111-132 | when find accepts the start, slots that are not live make no difference to a read |
| DeviceModel.FindsContent | aesd-char-driver/aesd-circular-buffer.c:53-63 | and it accepts all starts inside the content if and only if the exact condition on the sizes holds |
| DeviceModel.ReadFromStart | aesd-char-driver/main.c:93-109 | past the end-of-data check a pending seek only replaces the position and is gone |
| Writes.Conservation | aesd-char-driver/main.c:232-267 | for any chunks, log and tail concatenated are what was there followed by the chunks: nothing lost, added or moved |
| Writes.CommandIsGroup | aesd-char-driver/main.c:248-267 | command k is exactly the chunks after the k-1st newline-closed chunk up to the k-th |
| Writes.PendingIsOpenGroup | aesd-char-driver/main.c:249-254 | the tail is the chunks after the last closed one; one command per closing chunk |
| Writes.ClosersExact | aesd-char-driver/main.c:249 | the closing chunks are exactly those whose last byte is 10, in order |
| Writes.CommandsAreLinesExactly | aesd-char-driver/main.c:232-267 | commands and tail are the line split of the stream if and only if no chunk has a newline before its last byte |
| Writes.LineSplitUnique | aesd-char-driver/main.c:248-267 | a stream has only one split into newline-terminated lines and a rest |
| Writes.ChunkingDoesNotMatter | aesd-char-driver/main.c:232-267 | two such chunkings of one stream leave the same device |
| Reads.ReadAllIsContent | aesd-char-driver/main.c:93-192 | consecutive reads return the content from the start position without gap or overlap, and reach its end after at most as many reads as bytes |
| Reads.ReadsInRun | aesd-char-driver/main.c:60-192 | calls that read one file one after the other are those consecutive reads, and are allowed exactly when each can be served |
| Reads.ByteByByte | aesd-char-driver/main.c:93-192 | reading byte by byte can always be served to the end |
| Reads.TwoReadsSuffice | aesd-char-driver/main.c:139-154 | with room for everything, two reads from position 0 are always possible and return all of it |
| Reads.SingleBytes | aesd-char-driver/aesd-circular-buffer.c:160-167 | a one-byte read is always inside the window |
| Reads.CanReadExactly | aesd-char-driver/main.c:135-154 | the device-level window condition is equivalent to the helper's accesses being in bounds |
| Reads.StartSafeExactly | aesd-char-driver/main.c:111-154 | so is the precondition of a read, for every slot contents and every start |
| Reads.ReadBeyondEntry | aesd-char-driver/aesd-circular-buffer.c:164-173 | after one write of two bytes, a read of two bytes at position 1 leaves the entry |
| Reads.ContentDecidesExactly | aesd-char-driver/main.c:111-154 | reads return what the content alone determines, for all positions and counts, if and only if find accepts every position of the content |
| Reads.StaleSlotsCanBeSeen | aesd-char-driver/main.c:115-118 | two devices with equal content, of which one answers a read from the wrong position because find refuses |
| Reads.SeekResolves | aesd-char-driver/main.c:302-317 | with `out_offs` 0, seeking to byte o of command c leaves a position that find resolves to c and o |
| Reads.SeekReachesAll | aesd-char-driver/main.c:302-317 | and every position of the content is left by exactly the pair it resolves to |
| Reads.SeekByAgeExactly | aesd-char-driver/main.c:308-310 | command numbers follow age for all logs of a length if and only if `out_offs` is 0 |
| Reads.MisnumberedLog | aesd-char-driver/main.c:308-310 | a log of any other length on which they do not |
| Reads.SeekThenRead | aesd-char-driver/main.c:106-131 | after a seek the next read past the end-of-data check starts with the byte sought |
| Runs.RunConserves | aesd-char-driver/main.c:194-339 | over any mix of calls: dropped commands, content and tail are the chunks written since the last flush, and the content is the last ten commands |
| Runs.RunIsWrites | aesd-char-driver/main.c:194-339 | reads and seeks never change log or tail, whatever the slots contain |
| Runs.RegularRunIsPlain | aesd-char-driver/main.c:60-371 | on a run whose starts find accepts and whose seeks are to existing commands, the device answers as one without slots |
| Runs.SameAnswers | aesd-char-driver/main.c:60-371 | two devices that differ in their slots only answer all regular runs alike |
| Runs.SmallIsRegular | aesd-char-driver/aesd-circular-buffer.c:47-49 | while slots and bytes written add up to less than 2^64, find accepts everything in every state of a run, and the calls that are not regular are exactly the seeks to commands that do not exist |
| Runs.SeekPendingExactly | aesd-char-driver/main.c:93-109 | a seek is pending if and only if one was made that no seek, flush or read past the end-of-data check followed |
| Runs.ReadServesStandingSeek | aesd-char-driver/main.c:106-109 | a read starts at a seek position only if that seek stands, and then none is pending |
| Runs.SeekServesOnce | aesd-char-driver/main.c:106-109 | between two reads that start at a seek there is another seek |
| Laws.WriteDecides | aesd-char-driver/main.c:248-267 | an empty chunk changes nothing; a chunk with last byte 10 adds tail and chunk to the log as one command and empties the tail; any other is added to the tail; a pending seek stays |
| Laws.CommandsEndInNewline | aesd-char-driver/main.c:249-254 | in every state of every run no command is empty, each ends in byte 10, and the tail does not |
| Laws.KeepsTen | aesd-char-driver/aesd-circular-buffer.c:95-128 | after n commands since the last reset, which are the newline-closed groups of chunks, the content is all of them if n is at most 10, and the last 10 otherwise |
| Laws.SlotAfterStep | aesd-char-driver/aesd-circular-buffer.c:103-120 | no call changes a slot but a committing write, and it only slot n modulo 10 |
| Laws.SeekAddsUp | aesd-char-driver/main.c:308-314 | for every log and all command numbers up to 10, live or not: position 0 for command 0, one slot size more per command, plus the offset; nothing else changes |
| Laws.SeekHitsExactly | aesd-char-driver/main.c:308-313 | for every live byte: how far the position left is from where the byte is, and that it is right if and only if the oldest command is in slot 0 |
| Laws.SeekThenReadAnywhere | aesd-char-driver/main.c:106-191 | for every `out_offs` and every seek: the next read past the check returns the content from that position on and moves the file behind it, or nothing if it is behind the data; the seek is gone |
| Laws.RefusedRead | aesd-char-driver/main.c:111-154 | from the wrapped sum of sizes on, a read inside the data returns the slots from slot 0 on, up to the newest command or the array's cut |
| Laws.EnabledExactly | aesd-char-driver/main.c:249-313 | the calls the model allows: a last byte exists, slots and position exist, the helper's window is open |
| Laws.StepMovesFile | aesd-char-driver/main.c:60-61 | write, seek and flush move no file, a read moves its own to where it says, and no other |
| Laws.UnreadFileStays | aesd-char-driver/main.c:93-191 | over a run, a file that is not read stays at its position, at 0 if it was just opened |
| Laws.LastReadPlaces | aesd-char-driver/main.c:184-191 | and one that is read is where its last read left it |
| Laws.FilesReadApart | aesd-char-driver/main.c:93-191 | reads of several files in any order: each gets the content from its own position on, without gap or overlap |
| Laws.Answers | aesd-char-driver/main.c:177-371 | a write returns the number of bytes it was given, a read at most what was asked for |
| DeviceRuns.ExecuteOp | aesd-char-driver/main.c:60-371 | one call of the class is one step of the device with slots |
| DeviceRuns.Execute | aesd-char-driver/main.c:60-371 | over any allowed run, all return values, bytes and positions are those of the device with slots, and those of the byte-string device if the run is regular |
| DeviceRuns.FlushIsReset | aesd-char-driver/main.c:319-339 | a flushed device and a new one make every later run on the empty device, each with its slots: outputs, positions and states; on regular runs they are the same |
| DeviceRuns.ReadToEnd | aesd-char-driver/main.c:60-192 | reading until a read returns nothing yields the rest of the content, whatever size of read can be served |
| Locking.Always | aesd-char-driver/main.c:76-191 | the invariant of the protocol under every schedule |
| Locking.StepKeeps | aesd-char-driver/main.c:205-277 | each step of any thread keeps it |
| Locking.MutualExclusion | aesd-char-driver/main.c:215-277 | one thread at a time between lock and unlock; only the holder changes shared fields |
| Locking.WritersSerialised | aesd-char-driver/main.c:215-277 | log and tail are the serial writes, in lock order, of exactly the writers that got the mutex, each once, whatever they return; the cached size and the slots match |
| Locking.WritersConserve | aesd-char-driver/main.c:215-277 | no byte of such a writer is lost and none of a refused one appears |
| Locking.ReadersSeeSerialState | aesd-char-driver/main.c:76-191 | every reader that had the mutex returns, inside the helper's window, bytes and final position of a read of the serial device at its place; in a system that is not calm possibly nothing, or what it copied from behind the data; with -ENOMEM its file is left at the start position |
| LockChecks.FirstCheckExactly | aesd-char-driver/main.c:215-223 | a thread that makes its first check while the mutex is held is refused for good and never in the lock order; one that finds it free is not refused |
| LockChecks.RefusedWasChecked | aesd-char-driver/main.c:76-84 | no thread is refused in any other way |
| LockChecks.RefusedBytesNeverAppear | aesd-char-driver/main.c:215-223 | log and tail consist of chunks of threads other than a refused one |
| LockChecks.CanBeRefusedExactly | aesd-char-driver/main.c:215-223 | a thread can be refused if and only if there is another one |
| LockChecks.SecondCheckExactly | aesd-char-driver/main.c:269-277 | after its call a thread returns -ENOMEM if and only if it finds the mutex held again |
| LockChecks.WritersReturn | aesd-char-driver/main.c:269-283 | a writer that returns got the mutex, and returns the number of bytes it was given or -ENOMEM |
| LockChecks.NeverStuck | aesd-char-driver/main.c:84 | while some thread has not finished, some such thread is not waiting for the mutex |
| LockChecks.EveryScheduleEnds | aesd-char-driver/main.c:60-283 | a schedule has at most eleven steps per thread |
| LockOutcomes.TakenButNoMemExactly | aesd-char-driver/main.c:269-277 | a writer with something to write can have its bytes taken and return -ENOMEM if and only if there is another thread |
| LockOutcomes.JoinFitsExactly | aesd-char-driver/main.c:205-238 | the joined bytes fit into `tmp` if and only if no partial entry is in use or it is no longer than the one seen when `tmp` was allocated |
| LockOutcomes.OverflowHappens | aesd-char-driver/main.c:205-238 | a reachable state in which they do not, for any two writers of which the other makes the partial entry longer than it may have been seen |
| LockOutcomes.OverflowExactly | aesd-char-driver/main.c:205-260 | for every device and every size that the unused entry was left with: such a state is reachable if and only if another writer's chunk extends the entry and outgrows it, alone, because the entry is in use, or together with a third one |
| LockOutcomes.CopiedButNoMemExactly | aesd-char-driver/main.c:157-165 | a reader inside the data can have copied, and consumed a seek, and return -ENOMEM if and only if there is another thread |
| LockReaders.CalmReadsExactly | aesd-char-driver/main.c:157-191 | nobody writes, or the ring has room for all and a pending seek is harmless: every reader that delivers has the bytes and the position of a read of the serial device |
| LockReaders.BytesLost | aesd-char-driver/main.c:157-191 | for any device and number of writers that exceed the ring, a reachable state in which a reader inside the data delivered nothing |
| LockReaders.SeekOvertaken | aesd-char-driver/main.c:106-109 | for any device whose pending seek is not harmless, slots, writers and a reachable state in which a reader delivered bytes although its position was behind the data |
| LockReaders.ReadersExactly | aesd-char-driver/main.c:157-191 | together, for every device and number of writers, as an equivalence |
| Tailq.Init | server/queue.h:448-451 | the empty queue |
| Tailq.InsertHead | server/queue.h:453-461 | the entry in front |
| Tailq.InsertTail | server/queue.h:481-486 | the entry at the end |
| Tailq.InsertBefore | server/queue.h:463-468 | the entry at its index, though the head is not given |
| Tailq.InsertAfter | server/queue.h:470-479 | the entry at its index, tail pointer included |
| Tailq.Remove | server/queue.h:497-504 | the queue without the entry; the entry's own cells stay |
| Tailq.Replace | server/queue.h:506-515 | the other entry in its place |
| Tailq.Concat | server/queue.h:488-495 | all of the second queue appended; the second is empty and usable |
| Tailq.Swap | server/queue.h:517-534 | the two heads have exchanged entries, empty queues included |
| Tailq.Last | server/queue.h:541-542 | the last entry, NULL if there is none |
| Tailq.Prev | server/queue.h:544-545 | the entry before, NULL for the first |
| Tailq.Foreach | server/queue.h:549-552 | the entries, in order |
| Tailq.ForeachReverse | server/queue.h:559-562 | terminates and passes the entries in exactly the reverse order |
| Tailq.ReversedAt | server/queue.h:559-562 | what reverse order means, index by index |
| Tailq.QueueUnique | server/queue.h:429-451 | the cells determine the entries: a head heads one queue only |
| Circleq.Init | server/queue.h:590-593 | the empty ring |
| Circleq.InsertHead | server/queue.h:595-604 | the entry in front, forward and backward |
| Circleq.InsertTail | server/queue.h:628-637 | the entry at the end, forward and backward |
| Circleq.InsertBefore | server/queue.h:606-615 | the entry at its index |
| Circleq.InsertAfter | server/queue.h:617-626 | the entry at its index |
| Circleq.Remove | server/queue.h:639-650 | the ring without the entry |
| Circleq.RingUnique | server/queue.h:573-593 | the ring determines the entries |
| Circleq.LoopIndex | server/queue.h:699-707 | LOOP_NEXT and LOOP_PREV step cyclically through the entries, skipping the head |
| Circleq.LoopInverse | server/queue.h:699-707 | they are inverse permutations of the entries |
| Circleq.FullCircle | server/queue.h:699-707 | as many steps as entries lead back to the start, and pass every entry on the way |
| Circleq.NoneTwice | server/queue.h:699-707 | and none twice |
| Stailq.Init | server/queue.h:315-318 | the empty queue |
| Stailq.InsertHead | server/queue.h:320-325 | the entry in front, tail pointer right |
| Stailq.InsertAfter | server/queue.h:327-333 | the entry at its index, tail pointer right |
| Stailq.InsertTail | server/queue.h:335-339 | the entry at the end |
| Stailq.Concat | server/queue.h:341-347 | all of the second queue appended; the second is empty and usable |
| Stailq.RemoveHead | server/queue.h:349-354 | the queue without its first entry |
| Stailq.RemoveHeadUntil | server/queue.h:356-361 | the queue behind the given entry |
| Stailq.RemoveAfter | server/queue.h:363-369 | the queue without the entry behind the given cell |
| Stailq.Remove | server/queue.h:371-385 | the search loop ends at the entry before; the queue without the entry |
| Stailq.Swap | server/queue.h:387-400 | the two heads have exchanged entries, empty queues included |
| Stailq.Last | server/queue.h:406-410 | the last entry, NULL if there is none |
| Stailq.QueueUnique | server/queue.h:299-318 | the cells determine the entries |
| Slist.InsertHead | server/queue.h:146-149 | the entry in front |
| Slist.InsertAfter | server/queue.h:151-154 | the entry behind the given one |
| Slist.RemoveHead | server/queue.h:156-158 | the list without its first entry |
| Slist.RemoveAfter | server/queue.h:160-163 | the list without the entry behind the given one |
| Slist.Remove | server/queue.h:165-176 | the search loop ends at the entry before; the list without the entry, whose own next field stays |
| Slist.Swap | server/queue.h:178-182 | the two heads have exchanged entries |
| Slist.ListUnique | server/queue.h:127-144 | the cells determine the entries |
| Server.Sweep | server/aesdsocket.c:439-446 | for any outcome of the completion test: exactly the selected threads are joined, once each and in order, and the others stay listed in order |
| Server.SelectSplits | server/aesdsocket.c:439-446 | joined and kept threads together are the listed ones, as multisets |
| Server.SelectSelects | server/aesdsocket.c:440 | a listed thread is joined if and only if the test selects it |
| Server.AesdSocket.Connect | server/aesdsocket.c:431-449 | the new thread is listed in front; all connections but the first are followed by a sweep |
| Server.AlwaysAccounted | server/aesdsocket.c:385-465 | created threads are the joined, cancelled and listed ones, as multisets, after every connection of every run |
| Server.JoinedOnce | server/aesdsocket.c:428-449 | each id is joined and listed together as often as it was given to a thread, also if reused after a join; an id given once is joined or listed, and not both |
| Server.AsWritten | server/aesdsocket.c:438-446 | with the test as written, the list holds the first thread until the second connection and is empty after every later one |
| Server.Drain | server/aesdsocket.c:322-329 | the loop empties the list and cancels exactly the listed threads, in order |
| Server.AesdSocket.Shutdown | server/aesdsocket.c:314-330 | the listed threads are the ones cancelled |
| Server.Serve | server/aesdsocket.c:383-471 | over a whole run with shutdown, every thread is either joined or cancelled |

## Left out

- Device.AesdDevice.Read: requires the window condition, outside of which the source reads or writes past its buffers (`StartSafeExactly`).
- Device.AesdDevice.Write: requires a non-empty chunk unless a partial entry is pending, because the source then looks at the byte before the buffer; line 240 of main.c, which stores a pointer through a freed one, is taken as giving `data` a larger buffer.
- Device.AesdDevice.AdjustFileOffset: requires a command number of at most ten, because the source then reads behind the array, and a position below 2^63, because a larger one does not fit into its `loff_t` and becomes negative; only sizes of slots that were never written can add up to that.
- CircularBuffers.CircularBuffer.AddEntry: the cached size is an unbounded integer, here and in `Locking.Shared`; the source's `ssize_t` holds it because the live entries are in memory. Only find's sum, which counts slots that were never written, is taken modulo 2^64.
- CircularBuffers.CircularBuffer.FindEntryOffsetForFpos: the branch at line 78 of aesd-circular-buffer.c, which cannot be taken after the walk, is not repeated.
- CircularBuffers.CircularBuffer.ReadHelper: the 32-bit loop counters are unbounded integers; one entry is far below 4 GB because the kernel's allocator is.
- Locking.Step: flush and seek take no lock in the source and are steps of sequential runs only; each reader has its own open file; a step that would leave its buffers, or look before them, is not enabled.
- Server.Sweep: joining is recorded, and the threads' own work is not modelled; the outcome of the completion test is a parameter.
- aesd_llseek, aesd_open, aesd_release, device registration, ioctl decoding and failing user copies.
- Allocation, freeing and leaks; buffers are values or fresh arrays.
- CIRCLEQ_REPLACE, whose use of `(head).` does not fit the pointers the other CIRCLEQ macros take; the LIST macros, which are TAILQ without a tail pointer; the CIRCLEQ and STAILQ traversals, which add nothing to the ring and queue predicates.
- Sockets, signals, timers, fork, command parsing, and the loop that sends the device's content to a client.
- finder-app, examples, scripts and tests.
