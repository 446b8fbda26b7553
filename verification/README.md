# The AESD character device and its socket server, verified in Dafny

This project models the stack that stores the last write commands of a character device and the
socket server that feeds it, and proves what the two layers promise together.

* **Ring** (`Ring.dfy`, `CircularBuffer.dfy`). A fixed number of slots, an `in_offs`, an `out_offs`
  and a `full` flag. Its meaning is a queue of entries, oldest first, that drops its head when it
  is full. A flat byte position names a slot and an offset, and back. The capacity is a parameter
  between 1 and 255 (the offsets are `uint8_t`); the driver uses 10.
* **Write log** (`WriteLog.dfy`, `FlatReads.dfy`). What a stream of write and read calls means
  without any ring or heap: commands are cut after each newline-terminated write, and a reader
  sees the last commands one after another.
* **Driver** (`Heap.dfy`, `DeviceBooks.dfy`, `Driver.dfy`, `DeviceRuns.dfy`). The device with its ring, its pending
  entry and its heap blocks, updated in place. A ledger kept beside it records the write log and the
  owner of every allocated block. Allocation and user copies may fail on every call.
* **Server** (`SeekText.dfy`, `Framing.dfy`, `Session.dfy`, `EndToEnd.dfy`). The chunk loop, the seek
  command in the text, the replay loop through a stdio stream, and whole runs of client sessions on
  the device.
* **File build** (`Serial.dfy`, `SerialRuns.dfy`, `SerialClients.dfy`, `SerialOrder.dfy`,
  `SerialProgress.dfy`). Client threads and the clock thread as a state machine over one shared
  stream and one mutex, with every interleaving of their steps.

Main results:

* `EndToEnd.ServeAll`: a run of client sessions of every kind on the device, each with its effect on
  the log and its answer. `EndToEnd.ServeClients` is the run of data lines: the n-th answer is the
  concatenation of the last min(n, capacity) commands.
* `DeviceRuns.RunWrites`: a run of write calls on a device, with any outcome of each. Ring and pending
  entry hold the cut write stream; evicted, ring and pending bytes are the stored bytes in order, and
  no block leaks, exactly when no reallocation of a pending entry fails; every call returns what its
  outcome demands.
* `Driver.AesdDevice.CleanupModule`: every block is freed once, except the blocks that failed
  reallocations have orphaned.
* `Driver.SeekLaw` and `Driver.SeekWorksIffUnwrapped`: which requests the seek call accepts in every
  state of the ring, and exactly when that is what it should.
* `SeekText.SeekCommandIff` and `Framing.ReceiveAccount`: the receive loop against the text: which
  chunks are seek requests, what is written, and how the loop ends.
* `SerialRuns.FileIsSerialHistory` and `SerialRuns.RepliesAreHistory`: under every interleaving the
  file is the serial history of the critical sections, exactly when no replay that stops short of
  the end of the file is followed by a non-empty write.
* `SerialClients.ClientOutcome`, `SerialOrder.SectionsInLockOrder` and `SerialOrder.ClockOutcome`:
  what every thread of a run writes, is sent and returns, as a function of its own input and steps.
  `SerialProgress.EveryClientCanBeServed`: from every reachable state a waiting client can be served.

Where the code departs from its purpose, the code is modelled as it is:

* A failed `krealloc` overwrites the only pointer to the pending block
  (`aesd-char-driver/main.c:158`). The block stays in the ledger as leaked, and its bytes as lost.
* The seek call indexes the array without the modulo used elsewhere
  (`aesd-char-driver/main.c:230`). In C the access past the array is undefined; here the size read
  there is an arbitrary number, and the address equals no slot's. `NewestCommandUnreachable` gives
  the failing requests.
* The cleanup loop reduces modulo the number of entries instead of the capacity
  (`aesd-char-driver/main.c:349`). `CleanupVisitsLiveSlots` says in which ring states this is right;
  the states that runs reach are among them.
* Every 255-byte chunk is tested for the seek prefix, not only the first of a line
  (`server/server_impl.c:491`). `LineFraming` carries the exact condition, and `SeekInsideLongLine`
  gives all the lines that are cut short in their second chunk.
* A replay that stops early leaves the shared stream in the middle, and the next write of the file
  build overwrites what follows (`server/server_impl.c:557-568`). `FailedReplayLosesLine`
  shows it, and `FailedSendKeepsLine` a failure that does no such harm.

Assumptions: heap blocks have identifiers that are never reused, and the blocks in use together stay
below 2^63 bytes, so that sizes fit a `size_t` and positions a `loff_t`. Each driver call is one
atomic step; `aesd_read` and `aesd_write` hold the mutex for it, while `llseek` and the seek call
take no lock in the code, so that their atomicity is assumed.

## Model

| member | source | states |
|---|---|---|
| CircularBufferImpl.CircularBuffer.Init | aesd-char-driver/aesd-circular-buffer.c:142-145 | from any contents the ring becomes the empty well-formed ring |
| CircularBufferImpl.CircularBuffer.FindEntryOffsetForFpos | aesd-char-driver/aesd-circular-buffer.c:29-48 | a slot is found exactly when the position is below the total size, and then position, slot and offset name the same byte |
| CircularBufferImpl.CircularBuffer.FposForEntry | aesd-char-driver/aesd-circular-buffer.c:50-73 | succeeds exactly for a slot of the array and an offset below its size, and then returns the position that names that byte |
| CircularBufferImpl.CircularBuffer.GetCount | aesd-char-driver/aesd-circular-buffer.c:75-93 | the length of the queue of live entries, in wrapped, unwrapped and full states |
| CircularBufferImpl.CircularBuffer.GetSize | aesd-char-driver/aesd-circular-buffer.c:95-108 | the total size of the live entries as a size_t holds it, although the loop adds up every slot |
| CircularBufferImpl.CircularBuffer.AddEntry | aesd-char-driver/aesd-circular-buffer.c:117-137 | keeps the ring well-formed and pushes onto the queue, dropping the head exactly when the ring was full |
| Ring.NamesIsBijection | aesd-char-driver/aesd-circular-buffer.c:29-73 | positions below the total size and (slot, offset) pairs with the offset inside the slot correspond one to one, with empty slots anywhere |
| Ring.NamedByte | aesd-char-driver/aesd-circular-buffer.c:23-48 | the byte a position names is the byte at that index of the concatenated live commands |
| Ring.SizeIsLiveTotal | aesd-char-driver/aesd-circular-buffer.c:95-108 | walking all slots gives the live total, because dead slots are empty |
| Ring.AddRefinesPush | aesd-char-driver/aesd-circular-buffer.c:117-137 | from every well-formed state, reachable or not, an add is a bounded push and keeps well-formedness |
| Ring.ClosedForm | aesd-char-driver/aesd-circular-buffer.c:117-145 | after n adds: both offsets, the flag, the count, every slot and the queue as functions of n |
| Ring.CleanupVisitsLiveSlots | aesd-char-driver/main.c:346-354 | indexing modulo the count visits exactly the live slots if and only if the ring is full, empty, or starts at slot 0 |
| WriteLog.RunCutsStream | aesd-char-driver/main.c:179-203 | a run of accepted writes, as a log, commits the commands got by cutting the stream after each newline-terminated write, and leaves the uncut rest pending; RunWrites says so of the device |
| WriteLog.RunConserves | aesd-char-driver/main.c:149-203 | over every run with any failures, committed, pending and lost bytes add up to the stored bytes, in order while nothing is lost |
| WriteLog.ApplyAddsStored | aesd-char-driver/main.c:149-203 | the bytes a call stores are found again among the held and the lost ones, whatever its outcome |
| WriteLog.LossIffFailedGrowth | aesd-char-driver/main.c:156-168 | a run loses nothing if and only if no call fails to grow a non-empty pending entry |
| WriteLog.HeldIsStoredIffNoLoss | aesd-char-driver/main.c:156-203 | in the log, evicted, live and pending bytes are the stored stream if and only if no such failure happened; RunWrites says so of the device |
| WriteLog.FailedGrowthLosesBytes | aesd-char-driver/main.c:158-168 | three calls with one failed reallocation commit a command without its first byte |
| WriteLog.CommittedCommandsEndLines | aesd-char-driver/main.c:180 | whatever fails, every committed command is non-empty and ends in a newline |
| WriteLog.PendingIsUnfinished | aesd-char-driver/main.c:171-203 | without copy faults the pending bytes never end in a newline |
| WriteLog.EvictionShift | aesd-char-driver/main.c:182-193 | a commit appends to the flat view; on a full ring position p then names what p plus the oldest size named before |
| FlatReads.PieceIsSlice | aesd-char-driver/main.c:100-128 | one read returns a slice of the flat view at its position, empty only at the end or for a zero count |
| FlatReads.PieceStaysInCommand | aesd-char-driver/main.c:114-117 | a read inside a command ends at that command's end at the latest |
| FlatReads.ReadLoopDeliversView | aesd-char-driver/main.c:90-134 | repeated reads with any positive counts deliver the view in order, gain at least a byte each, and deliver all of it |
| DeviceBooks.GrowPending | aesd-char-driver/main.c:156-164 | growing the pending entry, in place or moved, keeps blocks and owners in bijection and the pending bytes as a prefix |
| DeviceBooks.DropPending | aesd-char-driver/main.c:158-168 | after a failed reallocation the old block is allocated, unowned by the device, and everything else is consistent |
| DeviceBooks.EvictedIsOwned | aesd-char-driver/main.c:182-186 | the block freed on a full ring is allocated and holds the oldest live command |
| DeviceBooks.Commit | aesd-char-driver/main.c:179-197 | moving the pending entry into the ring and freeing the oldest block keeps contents, ownership and the byte account |
| DeviceBooks.RingIsLastCommands | aesd-char-driver/main.c:179-197 | the ring read oldest to newest is the last min(n, capacity) of the n committed commands |
| DeviceBooks.CleanupFindsEntry | aesd-char-driver/main.c:346-350 | in reachable states the i-th cleanup index is the slot of the i-th oldest command |
| Driver.AesdDevice.constructor | aesd-char-driver/main.c:301-333 | the device starts consistent, with an empty log and an empty heap |
| Driver.AesdDevice.FillEntry | aesd-char-driver/main.c:149-178 | the pending bytes grow by the buffer, by what a faulting copy left, or are lost; the call goes on with the count, or returns -14 or -12 |
| Driver.AesdDevice.CommitEntry | aesd-char-driver/main.c:179-203 | the pending bytes become the newest command, and the oldest block of a full ring is no longer allocated |
| Driver.AesdDevice.AesdWrite | aesd-char-driver/main.c:136-206 | from every consistent state and for every outcome: the log step, the leaked block if any, and the evicted block freed; 0 for an empty buffer, -12 without memory, -14 on a faulting copy, otherwise the count; a command is committed only by a positive return for a buffer that ends in a newline, and a return that is not negative adds just as many bytes |
| Driver.AesdDevice.LocateRead | aesd-char-driver/main.c:100-117 | the located bytes are the next piece of the flat view, in an allocated block |
| Driver.AesdDevice.AesdRead | aesd-char-driver/main.c:90-134 | returns the next piece of the last commands and moves the position by its length; on a fault or at the end the position stays |
| Driver.AesdDevice.Llseek | aesd-char-driver/main.c:208-218 | from the start, the position or the end, a target within exactly the bytes that the ring holds is taken; any other gives -22 and leaves the position |
| Driver.AesdDevice.Rewind | server/server_impl.c:542-546 | a rewind always succeeds and leaves the position at the start |
| Driver.AesdDevice.AdjustFileOffset | aesd-char-driver/main.c:220-246 | success exactly when the command exists, the offset lies inside it and its slot is reached without wrapping; then the position is the command's start plus the offset, otherwise -22 and the position unchanged; SeekLaw gives the accepted requests in every state |
| Driver.SeekLaw | aesd-char-driver/main.c:226-233 | after n commits a request is accepted if and only if it names a byte of a live command k and n is at most the capacity or n modulo the capacity plus k stays below it |
| Driver.SeekableCommands | aesd-char-driver/main.c:226-233 | so in a wrapped state exactly the capacity - n modulo capacity oldest commands can be sought |
| Driver.SeekWorksIffUnwrapped | aesd-char-driver/main.c:226-233 | after n commits every request is treated as meant if and only if n is at most the capacity or a multiple of it |
| Driver.NewestCommandUnreachable | aesd-char-driver/main.c:230 | in the other states the newest command exists and cannot be sought |
| Driver.AesdDevice.CleanupModule | aesd-char-driver/main.c:335-354 | no block is freed twice, and exactly the leaked blocks remain |
| DeviceRuns.RunWrites | aesd-char-driver/main.c:136-206 | over every run of calls from initialisation, each ending as its environment decides: what every call returns; ring, pending entry and leaked blocks hold what the log says; nothing is lost or leaked if and only if no call fails to grow a pending entry; when all calls are accepted, ring and pending entry are the cut stream, and with memory and copies granted every call returns its count |
| SeekText.StrtolReadsDecimal | server/server_impl.c:501-508 | strtol reads back a printed number, saturating, and stops right after it |
| SeekText.SeekLineIsRecognised | server/server_impl.c:491-528 | every printed request is recognised, with both numbers as the int and uint32_t conversions leave them |
| SeekText.SeekRoundTrip | server/server_impl.c:500-514 | the recognised pair is the printed pair if and only if both numbers fit 32 bits |
| SeekText.SeekLineIsShortLine | server/server_impl.c:473-478 | such a request has at most 41 bytes and its only newline at the end |
| SeekText.SeekCommandIff | server/server_impl.c:491-528 | a chunk is a seek request if and only if it is the prefix, spaces, sign and digits, a comma, and spaces, sign and digits again, whatever follows; and it then asks for these two numbers |
| SeekText.WithoutPrefix | server/server_impl.c:495-499 | text without the prefix is data |
| SeekText.DigitsAreDecimal | server/server_impl.c:504-508 | digits have the value whose printed form they show after any leading zeros |
| SeekText.SignsAndZeros | server/server_impl.c:500-514 | a request with space, minus, plus, leading zeros and trailing text, and the pair it asks for |
| Framing.FgetsDelivers | server/server_impl.c:478 | a chunk is delivered if and only if it is a non-empty beginning of the input, of at most 255 bytes, without newline before its last byte, and cut short only by a newline or the end of file |
| Framing.ReceiveAccount | server/server_impl.c:477-541 | for every input: the loop wrote every byte before its end, no chunk of it a seek request, all full but the last; it ended at a line end, where fgets gives nothing more, or at a chunk that is a request for just that pair |
| Framing.LineFraming | server/server_impl.c:477-541 | with a newline in the input the loop ends on that line if and only if no 255-byte chunk of it is a seek command; it then wrote its chunks and consumed just the line |
| Framing.SplitJoins | server/server_impl.c:477-541 | the chunks of a line join to the line, and there are ceil(length / 255) of them |
| Framing.SplitAt | server/server_impl.c:477-478 | the i-th chunk is the 255 bytes from 255 * i on, or what is left |
| Framing.UnfinishedLine | server/server_impl.c:478-488 | input without a newline: before an end of file all of it is written, before a read error its full chunks, and then the loop fails, unless one of these chunks is a seek command |
| Framing.SeekLineIsReceived | server/server_impl.c:491-528 | a printed request is received as that request and nothing is written |
| Framing.SeekInsideLongLine | server/server_impl.c:491-499 | after any first chunk that is no seek command itself, a request 255 bytes into the line ends the loop as a seek, whatever follows |
| Framing.ReplayIsIdentity | server/server_impl.c:557-564 | the replay loop sends a stream unchanged if and only if it has no NUL byte |
| Framing.ReplayedPart | server/server_impl.c:557-564 | after any number of turns the loop has sent a beginning of the whole replay, and all of it once every chunk is read |
| Session.DeviceStream.NextChunk | server/server_impl.c:557 | reading the device in blocks yields the next chunk of the flat view, whatever the command boundaries |
| Session.ReceiveLine | server/server_impl.c:477-541 | the device log grows by exactly the received chunks, each with the outcome that its environment decides; the end of the loop is that of the input, which ReceiveAccount and SeekCommandIff give from the text |
| Session.ReplayOutput | server/server_impl.c:556-568 | success exactly after all chunks of what is left to read were sent; otherwise the next chunk could not be sent or a read failed, and the chunks before it were sent |
| Session.ServerProtocol | server/server_impl.c:466-570 | for every input and every outcome of writes, reads and transfers: the log after the session, and the answer: an error and nothing when the input ends before a line or the seek fails, otherwise the replay of the flat view from its start or from the position sought, as far as the transfers succeed |
| EndToEnd.ReceivedChunks | server/server_impl.c:477-541 | for every input, the received chunks are the beginning of the input, and only the last can end a line, exactly if the loop ends on a line |
| EndToEnd.PlainLineIsDataLine | server/server_impl.c:491-541 | every NUL-free line that has the seek prefix at no multiple of 255 bytes is a data line |
| EndToEnd.TurnCommits | server/server_impl.c:530-540 | the accepted chunks of any session join the pending bytes, and are committed with them as one command exactly if a line end was received |
| EndToEnd.DataLineCommits | server/server_impl.c:477-541 | a data line becomes one command, joined to what was pending |
| EndToEnd.UnfinishedThenLine | server/server_impl.c:478-540 | bytes of a session that ended without a newline become the beginning of the next client's command |
| EndToEnd.UnfinishedClient | server/server_impl.c:479-487 | a session on the device whose input ends or breaks before a newline is answered with an error and nothing else, commits nothing, and with memory granted leaves pending what could be read |
| EndToEnd.TurnKeepsNulFree | server/server_impl.c:477-541 | sessions with NUL-free inputs keep commands and pending bytes NUL-free |
| EndToEnd.LineAnswer | server/server_impl.c:542-564 | the answer to a line is the whole flat view |
| EndToEnd.SeekAnswer | server/server_impl.c:547-564 | the answer to a seek request is the command from the offset on and all later commands, exactly if the device accepts the position |
| EndToEnd.SeekClient | server/server_impl.c:466-570 | a session on the device that sends a printed request leaves the log alone and is answered with command x from byte y on and all later commands, or with an error |
| EndToEnd.ServeAll | server/server_impl.c:318-339 | over a whole run of sessions with any NUL-free inputs and any outcomes: each write ends as its environment decides, each answer is what the log at that moment says, or the chunks of it before the transfer that fails; with memory granted, each session has exactly the effect of its received bytes |
| EndToEnd.RunSession | server/server_impl.c:318-339 | one session of such a run, from any log and any stream |
| EndToEnd.ServeClients | server/server_impl.c:318-339 | over a whole run of data lines, the n-th answer is the concatenation of the last min(n, capacity) commands |
| Serial.WriteAppendsIffAtEnd | server/server_impl.c:530 | a non-empty write appends if and only if the stream is at its end |
| Serial.StepKeeps | server/server_impl.c:318-464 | every step of every thread keeps mutual exclusion, the serial history, and each client's account of what it wrote and read; how each thread ends is stated by ClientOutcome and ClockOutcome |
| SerialRuns.DoneClient | server/server_impl.c:477-541 | a successful client's line is complete and contiguous in one critical section |
| SerialRuns.AtEndIffClean | server/server_impl.c:530-568 | along every run, all non-empty writes start at the end of the file if and only if none comes after a replay that stopped short |
| SerialRuns.FileIsSerialHistory | server/server_impl.c:448-460 | under every interleaving the file is the sections' data in lock order if and only if no replay that stops short of the end is followed by a non-empty write; every timestamp is whole, except that the clock's last one may be a beginning of it while it is written or after its write failed |
| SerialRuns.ReplyIsWholeFile | server/server_impl.c:557-569 | in every run, a client about to leave with success has sent the whole file |
| SerialRuns.RepliesAreHistory | server/server_impl.c:542-564 | under the same condition, a successful reply is the history before its turn followed by its own line, and earlier replies are prefixes of later ones and of the file |
| SerialRuns.FailedReplayLosesLine | server/server_impl.c:557-568 | after a replay that fails at its first read, the next line of the same length replaces the previous one |
| SerialClients.ClientOutcome | server/server_impl.c:466-570 | in every run a client that has left succeeded if and only if its input ended in a line, none of its own writes was short and none of its own transfers failed; its section holds what the stream took of its chunks, and it was sent as many chunks of the file as its transfers succeeded |
| SerialOrder.SectionsInLockOrder | server/server_impl.c:318-464 | in every run the sections belong to the threads that took the lock, in that order, the clock's with the timestamps of its ticks |
| SerialOrder.ClockOutcome | server/server_impl.c:441-460 | in every run the clock's sections hold its timestamps in order, each as far as the stream took it, and the clock stops if and only if a write was short |
| SerialProgress.EveryClientCanBeServed | server/server_impl.c:318-339 | every run can go on until a waiting client has left, with success exactly if its input ends in a line |
| SerialProgress.LineIsAnswered | server/server_impl.c:542-569 | a run in which a client sends a line, is sent it back and succeeds, and the next line is appended |
| SerialProgress.FailedSendKeepsLine | server/server_impl.c:557-563 | after a send that fails on the only chunk, the next line is appended |

## Left out

- Module registration, `cdev`, ioctl number decoding, `printk` and syslog: no state property.
- Socket setup, `select` and `accept`, timers, signals, daemonising and argument parsing: operating-system calls; the order in which clients get the lock is arbitrary.
- The cleanup thread and `thread_list`: nothing is ever inserted into the list, so joining and freeing client threads is not claimed.
- Races of the unlocked `llseek` and seek call with `aesd_write`: each call is taken as one step.
- Llseek: `fixed_size_llseek` is kernel code; it is modelled from its documented behaviour for SEEK_SET, SEEK_CUR and SEEK_END.
- FindEntryOffsetForFpos: nothing is said when the sizes add up to 2^64 or more, which no heap holds; the same goes for FposForEntry.
- AdjustFileOffset: a read past the array is undefined in C; it is modelled as an arbitrary size at an address of no slot.
- AesdRead: bytes that a failing user copy has already delivered are not modelled.
- WriteChunk: a failed device write is dropped, while stdio would keep the bytes and try them again at the next flush.
- ReceiveLine: input with NUL bytes is excluded, because the code reads before its buffer when a chunk starts with NUL.
- ServerProtocol: a seek request right after a session that failed in its replay is excluded, because the call moves the file under bytes that stdio has read ahead; what stdio then reads is not modelled.
- ServeAll: for the same reason a seek request must come before any session whose transfers fail.
- NextChunk: stdio is a buffer filled with blocks of 4096 bytes; its cached file offset is not modelled.
- FileIsSerialHistory: the stream has one logical position; read-ahead of stdio in the file build is not modelled.
- StepKeeps: a write that `fwrite` reports as complete is taken as stored; the code ignores a failing `fflush` (`server/server_impl.c:458` and `536`), after which bytes may be missing.
- `examples/`, `finder-app/`, scripts and `conf/`: thin wrappers and configuration.
