# Verification of the AESD character device and its socket server

A Dafny 4.11 model of `/dev/aesdchar` and of the server code that talks to it, with proofs. Check it with
`dafny verify dfyconfig.toml`.

## What is modelled

* **The ring** (`Ring.dfy`, `CircularBuffer.dfy`, `Positions.dfy`): the ten-slot array of (pointer, size)
  entries of `aesd-circular-buffer.c`, updated in place, its bounded-queue meaning, and the two-way index
  between flat positions and (entry, offset) pairs.
* **The device** (`Device.dfy`, `Blocks.dfy`, `Stream.dfy`, `Runs.dfy`, `Content.dfy`, `Lines.dfy`): `main.c`
  on real heap blocks. `StorePartial` writes into the staging block in place, `FlushPartial` hands the block
  to the ring, `kfree` is a ghost update that may happen once a block. `Stream.Feed` is the reference: a
  byte-at-a-time automaton that knows nothing of segments or blocks. Each write takes an `Env` that says, by
  position in its buffer, whether each lock attempt and each `kmalloc` succeeds, so every combination of
  failures is covered.
* **The two mutexes** (`Protocol.dfy`, `ProtocolProofs.dfy`, `ProtocolTheorems.dfy`, `ProtocolCalls.dfy`,
  `ProtocolBlocks.dfy`): any number of writers, readers, seekers of both kinds and closing files. Between locking and
  unlocking `buffMutex` each assignment to the ring and the stage is a step of its own, and so is each round of
  a reader's lookup loop. Every reachable state is shown to be that of whole `aesd_write` calls run one after
  another in lock order, return values included; every read and seek takes effect at one moment of its own
  call; every call that is not interrupted does its work; and every heap block has the owners it should have at
  every step.
* **The server** (`Replies.dfy`, `Sessions.dfy`, `Visits.dfy`, `Answers.dfy`, `Server.dfy`, `Receive.dfy`,
  `Handler.dfy`): `ProcessBuffer` on top of the device, with interrupted reads and seeks, what each request of a
  session is answered with, and the receive loop that opens, serves and closes the device again and again.
* **The connection list** (`ConnectionList.dfy`): the heap list of `connectionlist.c`.

`KMALLOC_MAX_SIZE` is a kernel constant and stays symbolic: any positive value of which eleven are below
2^31. `size_t`, `uint8_t`, `uint32_t`, `int` and `loff_t` conversions are written out where the code makes
them (`Prelude.dfy`).

## What the code does that its names and comments do not say

Each of these is proved, with the exact condition.

* A write can return its full count and drop bytes: the result of the trailing `StorePartial` is ignored
  (`Runs.SilentDropIff`, `Runs.SilentDropExample`).
* An interrupted flush makes one entry of two lines, and loses no byte (`Stream.RefusalExample`). Every entry
  is one line if and only if that never happened at an accepted newline. The ring is the last ten *lines*, with
  the bytes after them staged, if and only if it happened at none of the last eleven: once the entry is out of
  the window the refusal is forgotten (`Stream.StreamRefinement`, `Stream.RefusalsAreForgotten`). What a
  *reader* gets is the last ten lines also where they are split up differently but nothing has been dropped yet
  (`Runs.LastTenLinesRead`).
* One write and the same bytes in two writes end alike if and only if every block the first part asks for is
  granted, or the second part adds nothing (`Runs.ChunkingIndependence`, `Runs.ChunkingExample`).
* `FlushPartial` returns holding `buffMutex` if and only if it got it with nothing staged; `aesd_write` never
  calls it so. `CloseConnection` returns holding the list's mutex if and only if the list was empty.
* `lseekPos` is added to the file's own position, which only reads move, so a seek decides where the next read
  starts only for a file still at position 0 (`Sessions.SeekLandsIff`). A client that has been sent some bytes is
  answered from that many bytes past where its seek led (`Answers.SeekAnswered`, `Answers.SeekAfterReadExample`).
* A seek that is rejected or interrupted is answered like any other: the server does not look at ioctl's result
  (`Answers.SeekAnswered`).
* Closing any file resets the position of all of them without a lock: it can undo another session's seek, or make
  an `aesd_llseek` in progress return 0 (`ProtocolCalls.CloseLosesSeek`, `ProtocolCalls.CloseSpoilsReturn`).
* A line that arrives in two receives is served without its first part: the receive writes over what was left
  over. What is served are the lines sent if and only if no round finds a newline any more once a receive has
  ended inside a line (`Receives.FramedIff`, `Receives.SplitLineExample`).
* Seeking accepts a command number equal to the count; in a full ring that is the oldest entry's size again.
* A line written later in a session is answered without as many leading bytes as the entry it pushed out had
  and earlier, shorter lines still owe (`Sessions.LaterWritesEchoTheLine`, `Sessions.Transcript`).

## Model

| member | source | states |
|---|---|---|
| Rings.AddRefinesPush | aesd-char-driver/aesd-circular-buffer.c:117-134 | an insertion keeps the offset, full-flag and blank-slot invariant, appends to the queue dropping the oldest iff it was full, and overwrites exactly the dropped entry's slot |
| Rings.RingRefinesBoundedQueue | aesd-char-driver/aesd-circular-buffer.c:117-142 | after any insertions into a zeroed ring it is valid and reads, oldest first, as the last ten entries inserted |
| Rings.PushAllIsWindow | aesd-char-driver/aesd-circular-buffer.c:109-116 | a queue that drops its oldest element when full always holds exactly the last ten pushed |
| Rings.VirtualOffset | aesd-char-driver/aesd-circular-buffer.c:20-26 | counting on from out_offs modulo ten is counting in reading order, for every count |
| CircularBuffers.CircularBuffer.Init | aesd-char-driver/aesd-circular-buffer.c:139-142 | a zeroed struct is a valid, empty ring |
| CircularBuffers.CircularBuffer.GetEntryAtVirtualOffset | aesd-char-driver/aesd-circular-buffer.c:20-26 | the slot returned is the one at that place in reading order, after truncation to uint8_t |
| CircularBuffers.CircularBuffer.GetSize | aesd-char-driver/aesd-circular-buffer.c:29-42 | the sum of the live entries' sizes, without wrapping |
| CircularBuffers.CircularBuffer.FindFposForVirtualEntryOffset | aesd-char-driver/aesd-circular-buffer.c:45-63 | -1 exactly above the count, otherwise the size of everything before that entry, narrowed to int |
| CircularBuffers.CircularBuffer.FindEntryAtPosition | aesd-char-driver/aesd-circular-buffer.c:65-69 | the slot at that place, wrapping at the capacity, after truncation to uint8_t |
| CircularBuffers.CircularBuffer.FindEntryOffsetForFpos | aesd-char-driver/aesd-circular-buffer.c:81-107 | none exactly at or past the end (the offset is then untouched), otherwise the live entry and offset that hold the position |
| CircularBuffers.CircularBuffer.AddEntry | aesd-char-driver/aesd-circular-buffer.c:117-134 | the whole new state; the queue is the old one pushed; the pointer returned is the dropped entry's or NULL |
| CircularBuffers.SlotSums | aesd-char-driver/aesd-circular-buffer.c:92-96 | the loop may run on over unused slots: sums over all ten slots are sums over the live entries |
| CircularBuffers.CrossingSlot | aesd-char-driver/aesd-circular-buffer.c:92-106 | the slot at which the running sum passes a position is live and holds that position |
| Positions.PositionIndexBijection | aesd-char-driver/aesd-circular-buffer.c:45-107 | position to (entry, offset) and back are inverse to each other, across zero-sized entries |
| Positions.LocateCorrect | aesd-char-driver/aesd-circular-buffer.c:71-80 | a position is found iff it is below the total, and the entry and offset found add up to it |
| Positions.LookupAgreesWithConcatenation | aesd-char-driver/aesd-circular-buffer.c:71-80 | the byte at the entry and offset found is the byte of the joined strings, and nothing is found iff the position is at or past the end |
| Content.ActualPosMeaning | aesd-char-driver/main.c:187 | the size_t sum of file and seek position is exact when not negative and beyond any content otherwise |
| Content.ActualPosAdvances | aesd-char-driver/main.c:187-210 | moving the file position by what was read moves the read position by as much, even where loff_t wraps |
| Content.ReadMeaning | aesd-char-driver/main.c:189-211 | a read delivers the joined content at its position, at most count bytes, and nothing iff nothing was asked for or is left |
| Content.ReadIsEntry | aesd-char-driver/main.c:184-211 | a read from offset off of entry k delivers that entry from there, as much as was asked for or is left of the entry |
| Content.RingBounded | aesd-char-driver/aesd-circular-buffer.c:55-62 | with every entry within a block, all offsets into the content are bounded by ten blocks |
| Content.SeekSelectsByte | aesd-char-driver/main.c:129-148 | a seek to a byte of a live command selects that byte; what follows is the rest of that command and all later ones |
| Content.SeekTargetIs | aesd-char-driver/main.c:129-148 | a seek is accepted iff the command number is at most the count and the offset at most that command's size (for the number equal to the count: 0, or the oldest entry's size if the ring is full), and selects the size of all commands before plus the offset |
| Content.LlseekTargetIs | aesd-char-driver/main.c:75-91 | the distance itself, its sum with the old position (wrapped only where no loff_t holds it), the size of the content, or the old position for an unknown whence |
| Content.LlseekMovesAdd | aesd-char-driver/main.c:81-84 | two moves from the current position add up, also where they wrap |
| Content.SlidingWindow | aesd-char-driver/aesd-circular-buffer.c:117-134 | committing a line drops exactly the oldest entry's bytes from the front of the content and appends the line |
| Content.SurvivorsSlide | aesd-char-driver/aesd-circular-buffer.c:117-134 | through any number of commits a surviving byte is found at its old position less the sizes dropped |
| Lines.LinesOfSplits | server/connectionHandlerThread.c:22-82 | cutting after each newline loses nothing: lines in order and the rest join to the input, every line's only newline is last, the rest has none |
| Lines.SplitUnique | server/connectionHandlerThread.c:22-82 | there is only one such cut |
| Stream.Conservation | aesd-char-driver/main.c:219-363 | whichever flushes fail, no byte is lost, duplicated or reordered, committed entries never change, the ring is the window of them, and nothing outgrows its block |
| Stream.FedPlain | aesd-char-driver/main.c:332-348 | bytes without a newline only lengthen the staged bytes |
| Stream.FedLine | aesd-char-driver/main.c:334-346 | storing a whole segment and flushing it is feeding its bytes one by one |
| Stream.StallsIff | aesd-char-driver/main.c:238-248 | a block is missing exactly where one is asked for and not granted; and one is asked for at the first byte if nothing is staged, and after each newline whose flush goes through |
| Stream.AllAcceptedIff | aesd-char-driver/main.c:329-355 | a write that fits accepts all of its buffer exactly if every block it asks for is granted |
| Stream.CleanIff | aesd-char-driver/main.c:274-298 | every entry is one whole line and no newline waits, iff no accepted newline's flush was refused |
| Stream.RecentIff | aesd-char-driver/main.c:274-298 | for every n: the last n entries are the last n lines, with what follows them staged, iff the flush at none of the last n + 1 newlines was refused |
| Stream.StreamRefinement | aesd-char-driver/main.c:302-363 | from the empty device: entries and stage are the lines and the rest of all bytes accepted iff no flush was refused; the ring is the last ten lines and the stage the rest iff none of the last eleven was |
| Stream.RefusalsAreForgotten | aesd-char-driver/main.c:332-348 | after any failures, more than ten further flushed lines make the ring the last ten lines again |
| Stream.RefusalExample | aesd-char-driver/main.c:274-279 | one refused flush turns two lines into one entry |
| Blocks.StageFresh | aesd-char-driver/main.c:238-248 | taking a fresh block keeps every block with one owner |
| Blocks.CommitTransfersBlock | aesd-char-driver/main.c:287-296 | a commit moves the staging block into the ring; the pointer freed is NULL or exactly the dropped entry's, was not free yet, and no other owner points to it |
| Blocks.QueueBlocks | aesd-char-driver/main.c:238-260 | no ring entry shares the staging block, so writing into it changes no entry |
| Runs.RunIsOneFeed | aesd-char-driver/main.c:302-363 | any run of writes, with any chunk boundaries and failures, is one feed of the bytes accepted |
| Runs.ConservationOverRuns | aesd-char-driver/main.c:219-363 | in every state a run reaches, evicted, ring and staged bytes are exactly the accepted bytes; entries are newline-terminated, non-empty and at most one block |
| Runs.WriteSound | aesd-char-driver/main.c:318-348 | each write keeps that invariant and adds exactly its accepted prefix, also when kmalloc fails midway |
| Runs.WriteRefused | aesd-char-driver/main.c:315-326 | a write that is interrupted at the lock returns ERESTARTSYS, one that asks for more than one block in all ENOMEM, and neither changes anything |
| Runs.WriteMeaning | aesd-char-driver/main.c:329-362 | any other write adds its bytes up to the first block it asks for in vain, all of them if there is none, and returns ENOMEM iff that cuts off a line it completes, else its count |
| Runs.LastTenLines | aesd-char-driver/main.c:302-363 | for every run: all entries are the lines iff no accepted newline's flush was interrupted; ring and stage are last ten lines and rest iff none of the last eleven was |
| Runs.LastTenLinesRead | aesd-char-driver/main.c:169-216 | for every run whose last newline was flushed: the content is the bytes of the last ten lines iff there are no more than ten or none of the last eleven was refused |
| Runs.LineLeavesLastTen | aesd-char-driver/main.c:302-363 | the same after one more line, in terms of what came before it |
| Runs.AllWellAccepts | aesd-char-driver/main.c:318-357 | with all locks and blocks granted a write accepts everything and returns its count iff the request fits, otherwise ENOMEM and nothing changes |
| Runs.SmoothRuns | aesd-char-driver/main.c:302-363 | however a stream is cut into successful writes, the ring ends as its last ten lines |
| Runs.ChunkingIndependence | aesd-char-driver/main.c:319-355 | if one write passes the size check so do both halves; the end state is the same iff every block the first half asks for is granted or the second adds nothing |
| Runs.ChunkingExample | aesd-char-driver/main.c:319-355 | two halves that end differently from the whole |
| Runs.SilentDropIff | aesd-char-driver/main.c:350-357 | a write returns its count without having kept every byte, exactly when the first block it asks for in vain is that of the part after the last newline |
| Runs.SilentDropExample | aesd-char-driver/main.c:350-357 | such a write exists |
| Devices.Device.Init | aesd-char-driver/main.c:402-407 | the zeroed device is empty, unlocked, and owns no block |
| Devices.Device.Kmalloc | aesd-char-driver/main.c:240-247 | a fresh block of the maximal size, or NULL |
| Devices.Device.Kfree | aesd-char-driver/main.c:293 | frees a block that is allocated and not yet free; NULL does nothing |
| Devices.Device.CopyIn | aesd-char-driver/main.c:258-260 | the bytes land after those already staged, which stay |
| Devices.Device.TakeBlock | aesd-char-driver/main.c:237-248 | a missing staging block is allocated, an existing one kept |
| Devices.Device.Append | aesd-char-driver/main.c:258-261 | the staged bytes grow by the segment in place, and no ring entry changes |
| Devices.Device.StorePartial | aesd-char-driver/main.c:219-266 | appends the bytes in place and leaves the ring alone, or fails exactly when a needed block is missing or the entry would outgrow its size |
| Devices.Device.MoveToRing | aesd-char-driver/main.c:287-296 | the staged bytes become the newest entry; the dropped entry's block is freed |
| Devices.Device.FlushPartial | aesd-char-driver/main.c:269-300 | commits iff the mutex was had and something is staged; still holds the mutex iff it was had with nothing staged |
| Devices.Device.AcceptLine | aesd-char-driver/main.c:334-346 | one round of the loop: the device is where the automaton is after that line, or a block was missing |
| Devices.Device.AcceptRest | aesd-char-driver/main.c:350-355 | what follows the last newline is staged, or the device stays at the accepted prefix |
| Devices.Device.AcceptAll | aesd-char-driver/main.c:329-357 | the scan accepts exactly the automaton's prefix and returns its result |
| Devices.Device.Write | aesd-char-driver/main.c:302-363 | state and result are those of feeding the accepted prefix; without the lock, or asking for more than a block, the device is left as it was; no mutex stays held; every block keeps one owner |
| Devices.Device.Deliver | aesd-char-driver/main.c:184-211 | the bytes at a position up to the end of the entry that holds it, at most count, less exactly as many at the end as could not be copied; none at or past the end |
| Devices.Device.Read | aesd-char-driver/main.c:169-216 | the bytes at the effective position up to the entry's end, a prefix of them shorter by what could not be copied; the file position moves by what was delivered and nothing else changes |
| Devices.Device.FindTarget | aesd-char-driver/main.c:129-148 | the position a seek selects, or none where it is rejected, as Content.SeekTargetIs says; the conversions between int and uint32_t lose nothing |
| Devices.Device.Ioctl | aesd-char-driver/main.c:97-160 | with the lock had: 0 iff the command number is at most the count and the offset at most that entry's size (the oldest entry's for number ten in a full ring, 0 for another number equal to the count), lseekPos being then the size of all entries before plus the offset; otherwise EINVAL and lseekPos unchanged; each other failure leaves it too |
| Devices.Device.Llseek | aesd-char-driver/main.c:65-95 | SEEK_SET sets the distance, SEEK_CUR its sum with the old position wherever a loff_t holds it and the wrapped sum otherwise, SEEK_END the size of the content, an unknown whence nothing; the position is returned |
| Devices.Device.Release | aesd-char-driver/main.c:52-60 | the shared seek position becomes 0, nothing else changes |
| Devices.Device.Cleanup | aesd-char-driver/main.c:427-431 | every block ever allocated ends up freed, each once |
| Devices.Device.ContentBounded | aesd-char-driver/main.c:129-148 | total and prefix sums are below 2^31, so no conversion on the read and seek paths loses anything |
| Devices.Device.SlotSizeMatches | aesd-char-driver/main.c:139-142 | the slot an accepted command number names is that command, the unused slot after the last, or the oldest entry again |
| Replies.ReadsToExhaustion | server/connectionHandlerThread.c:51-57 | reads of any positive sizes deliver the content from their start once and in order, and enough of them reach its end |
| Replies.InterruptedReply | server/connectionHandlerThread.c:51-57 | a reply whose n-th read is interrupted is the beginning of the whole one, and all of it iff n is at least the 4096-byte reads that the rest of each entry takes, each rounded up |
| Sessions.LaterWritesEchoTheLine | server/connectionHandlerThread.c:41-57 | the exact reply to any later line, and that it is the whole line iff nothing is pushed out and nothing was owed |
| Sessions.Transcript | server/connectionHandlerThread.c:22-77 | every reply of a session of any number of lines, and the device afterwards, whatever was staged before |
| Visits.SessionIsRun | server/connectionHandlerThread.c:34-57 | what a session does to the device is the run of its writes, whatever seeks, interrupted replies and failures come between |
| Visits.StartsAfresh | aesd-char-driver/main.c:43-60 | over any sequence of opened, served and closed sessions from the zeroed device, each starts with the shared seek position at 0 and on the run of all writes made so far |
| Visits.EchoLaw | server/connectionHandlerThread.c:22-77 | for the k-th session of any such sequence: a first written segment is answered with the window after it from its start, a first in-range seek from its byte on; the client gets all of it, for the seek the rest of that command and all later ones, iff no read is interrupted before the end |
| Visits.LastTenLinesEchoed | server/connectionHandlerThread.c:22-77 | a first line answered in full: if its flush went through, with the last ten lines of everything the device ever accepted iff those are no more than ten or the flushes at the ten newlines before it went through; if not, with the window from before |
| Visits.WritesTranscript | server/connectionHandlerThread.c:22-77 | every reply of a session that only writes, whatever flushes are refused and blocks missing: what the content after that write has beyond the largest content before it, up to a write that comes back short |
| Visits.EverySessionsReplies | server/connectionHandlerThread.c:22-77 | that for the k-th session of any sequence of sessions, whatever those before it did and met |
| Visits.EverySessionsTranscript | server/connectionHandlerThread.c:22-77 | for the k-th session of any such sequence, if it sends only lines and none fails: all its replies, in terms of what all sessions before it wrote |
| Answers.ReplyIs | server/connectionHandlerThread.c:48-57 | the reading loop sends one reply, which is a prefix of the content from file plus seek position on, all of it iff no read is interrupted before the end, and moves the file by its length |
| Answers.SeekAnswered | server/connectionHandlerThread.c:34-57 | a seek, for a file at any position: one reply, which is the content from the file's position plus the target on if the seek is accepted, plus the old seek position if it is rejected or interrupted; the file moves by the reply's length; an interrupted read leaves a prefix |
| Answers.WriteAnswered | server/connectionHandlerThread.c:41-57 | a write, for a file at any position: taken whole it has one reply, the content after it from file plus seek position on, by whose length the file moves; come back short it has none and ends the session |
| Answers.SeekAfterReadExample | aesd-char-driver/main.c:187 | after one line on an empty device a seek back to (0, 0) is answered with nothing |
| Answers.SessionTranscript | server/connectionHandlerThread.c:22-77 | every reply of a session that mixes lines and seeks, whatever it meets: one a request, in order, up to a write that comes back short; each the content then in the ring from the bytes received so far plus the last accepted target on |
| Answers.EverySessionsConversation | server/connectionHandlerThread.c:22-77 | the same for the k-th session of any sequence of sessions, on the run of all writes before it |
| Servers.SegmentsAreLines | server/connectionHandlerThread.c:22-77 | the segments served are the lines of the input, in order, each once |
| Servers.RequestsAsked | server/connectionHandlerThread.c:22-44 | request i is the i-th line, starts where the lines before it end, is a seek iff FindSeek makes one of the buffer from there on, and meets the locks, blocks and interruptions at its own places |
| Servers.AskedByOnce | server/connectionHandlerThread.c:22-44 | only one list of requests is as RequestsAsked says |
| Servers.Server.ReadToEnd | server/connectionHandlerThread.c:48-57 | the loop ends and sends exactly the content from the effective position on, or what came before the interrupted read; the file position moves by as much |
| Servers.Server.ServeSegment | server/connectionHandlerThread.c:26-76 | one segment: seek or write, then the reply; stops where the write comes back short |
| Servers.Server.ServeNext | server/connectionHandlerThread.c:26-76 | the newline branch keeps: what is served and what is left make up serving the whole buffer |
| Servers.Server.ProcessBuffer | server/connectionHandlerThread.c:17-83 | device, positions and replies are those of serving the one list of requests that the buffer's lines ask for (Servers.RequestsAsked), in order; the residual is what follows the last newline, with its length, and nothing else is written |
| Handlers.ServeBatch | server/connectionHandlerThread.c:136-144 | opening the device, processing a buffer and closing it again is one visit: same device, seek position and replies |
| Handlers.ServeRound | server/connectionHandlerThread.c:119-147 | one round: a receive to the start of the buffer, the batch that makes, and the copy over the residual |
| Handlers.ServeConnection | server/connectionHandlerThread.c:116-152 | the receive loop, with its two buffers as they are overwritten, is a row of visits, each round answered as its visit is, up to the receive that brings nothing or after which the process exits |
| Receives.ReceiveBrings | server/connectionHandlerThread.c:119-134 | a receive brings what is asked for, what there is room for beside the residual, or all there is, whichever is least, to the start of the buffer; what it does not reach stays |
| Receives.FramedIff | server/connectionHandlerThread.c:116-147 | the segments served over all receives are the lines the client sent iff no round finds a newline any more once a receive has ended inside a line |
| Receives.WholeLinesServed | server/connectionHandlerThread.c:116-147 | in particular where every receive ends with a line |
| Receives.SplitLineExample | server/connectionHandlerThread.c:119-147 | a line that arrives in two parts is served without its first part, whatever the buffer held |
| Handlers.RequestsAreLinesSent | server/connectionHandlerThread.c:116-147 | the same of the requests that the receive loop serves |
| ConnectionLists.FirstMatch | server/connectionlist.c:6-28 | the first connection on a descriptor, or the length |
| ConnectionLists.ConnectionList.constructor | server/connectionlist.c:99-103 | an empty, unlocked list |
| ConnectionLists.ConnectionList.FindConnection | server/connectionlist.c:6-28 | finds exactly the first match and the item before it; without a match both pointers keep what they held |
| ConnectionLists.ConnectionList.FindEnd | server/connectionlist.c:30-41 | the last item, or NULL for the empty list |
| ConnectionLists.ConnectionList.AddConnection | server/connectionlist.c:43-61 | appends one item and leaves the others in place |
| ConnectionLists.ConnectionList.Unlink | server/connectionlist.c:79-86 | removes exactly that item from the spine and frees it once |
| ConnectionLists.ConnectionList.CloseConnection | server/connectionlist.c:63-97 | removes and frees exactly the first match, or changes nothing; the mutex stays held iff the list was empty |
| ConnectionLists.ConnectionList.Destroy | server/connectionlist.c:105-118 | ends with an empty list, every item freed once, also with duplicate descriptors |
| ProtocolProofs.InsertOk | aesd-char-driver/aesd-circular-buffer.c:117-134 | the three separate assignments together restore the ring to the window of the commits, one longer |
| ProtocolProofs.CommitSerial | aesd-char-driver/main.c:287-296 | the commit is the one the write run alone makes at that newline |
| ProtocolProofs.ReadLearns | aesd-char-driver/aesd-circular-buffer.c:89-106 | a lookup done in rounds, with other threads between them, finds what an undisturbed one would |
| ProtocolProofs.SeekLearns | aesd-char-driver/main.c:129-148 | a seek done in rounds, with other threads between them, decides as an undisturbed one would |
| ProtocolProofs.ReachableInv | aesd-char-driver/main.c:169-363 | in every state that any schedule of any threads reaches, the invariant `Protocol.Inv` holds: who holds which mutex, the stage as the writer's place implies it, the serial run of the writes, what the holder of buffMutex has made of the ring or learnt about it, and the results of the calls that have returned |
| ProtocolTheorems.SafeAtEveryMoment | aesd-char-driver/main.c:269-363 | outside a commit, evicted, ring and stage are exactly what whole calls of aesd_write run one after another in lock order make, followed by the holder's accepted prefix; joined they are the bytes accepted; the entries committed are those of that run at every moment |
| ProtocolTheorems.ReadersSeeWholeCommits | aesd-char-driver/main.c:181-216 | a reader or seeker holding buffMutex finds a valid ring equal to the window of whole commits |
| ProtocolTheorems.StageChecksPass | aesd-char-driver/main.c:250-285 | the NULL check of FlushPartial and the size check of StorePartial never fail under aesd_write |
| ProtocolTheorems.LinesConcurrently | aesd-char-driver/main.c:302-363 | under every schedule and all failures, outside a commit: the entries are the accepted lines in lock order iff no flush at an accepted newline was refused, the ring is the last ten iff none of the last eleven was |
| ProtocolTheorems.LastTenLinesConcurrently | aesd-char-driver/main.c:302-363 | whatever else is interrupted: if no wait of FlushPartial was, the ring is the last ten lines of the bytes accepted whenever no line is on its way |
| ProtocolTheorems.NoDeadlock | aesd-char-driver/main.c:274-360 | while any thread is unfinished some thread can move |
| ProtocolTheorems.ReturnsUnlocked | aesd-char-driver/main.c:298-362 | a call that has returned holds no mutex; when all have, both are free and every acquired write is accounted for |
| ProtocolTheorems.RunsAreBounded | aesd-char-driver/main.c:302-363 | under any schedule the steps taken are bounded by the sizes of the calls |
| ProtocolTheorems.AllCanFinish | aesd-char-driver/main.c:302-363 | from every reachable state all threads can finish, without any interruption, missing block or fault |
| ProtocolCalls.ReadsAreAtomic | aesd-char-driver/main.c:181-216 | a finished read is one atomic read at one moment of its call: with the file position it was given, the seek position and the ring of that moment, outside any commit, a prefix of that shorter by exactly what could not be copied |
| ProtocolCalls.SeeksAreAtomic | aesd-char-driver/main.c:125-151 | a finished seek decided at one step of its call: accepted iff the command number was at most the count and the offset at most that entry's size in the ring of that moment, and in that step it set the shared position to the size of all entries before plus the offset |
| ProtocolCalls.LseeksAreAtomic | aesd-char-driver/main.c:65-95 | a finished aesd_llseek set, in one step of its call, the distance, its sum with the position of that moment (wrapped where no loff_t holds it), or the size of the content then, and left the position for an unknown whence; it returned what it set, or 0 where a close came between |
| ProtocolCalls.CloseLosesSeek | aesd-char-driver/main.c:52-60 | a close that overlaps takes back to 0 a position that an aesd_llseek has already set and returned |
| ProtocolCalls.CloseSpoilsReturn | aesd-char-driver/main.c:79-90 | one that comes while the call holds buffMutex makes it return 0 |
| ProtocolCalls.WritesAreAtomic | aesd-char-driver/main.c:315-362 | a finished write is the call in the serial run that its place says, with its own buffer, and returned what it returns there |
| ProtocolCalls.OrderInTime | aesd-char-driver/main.c:169-363 | a call comes after everything committed and every write finished at any moment before it returned, so calls keep their order in time |
| ProtocolCalls.OnlySignalsSendAway | aesd-char-driver/main.c:181-316 | a call that ended without a result was a close or was interrupted while it waited in a step of its own |
| ProtocolCalls.UndisturbedResults | aesd-char-driver/main.c:65-363 | under a schedule without interruptions and missing blocks every call that has returned has a result of its kind |
| ProtocolCalls.UndisturbedWrites | aesd-char-driver/main.c:302-363 | a write that has returned so returned its count with its whole buffer among the bytes accepted, if it fitted at its turn, and ENOMEM with the device unchanged if not |
| ProtocolCalls.AllCanBeDone | aesd-char-driver/main.c:302-363 | some undisturbed schedule brings all calls to return |
| ProtocolCalls.UndisturbedLines | aesd-char-driver/main.c:302-363 | once all calls have returned undisturbed the ring is the last ten lines of everything accepted in lock order, and the stage what follows them |
| ProtocolCalls.SignalsInterrupt | aesd-char-driver/main.c:274-316 | interrupted at its first lock a call returns ERESTARTSYS and changes nothing; interrupted in FlushPartial a write goes on with the line still staged |
| ProtocolCalls.MissingBlockStops | aesd-char-driver/main.c:238-248 | a write that asks for a block in vain stops there, and returns ENOMEM iff a line was still to come |
| ProtocolCalls.FaultShortens | aesd-char-driver/main.c:207-210 | a fault while copying to the caller shortens the result by exactly the bytes not copied |
| ProtocolBlocks.OwnedAtEveryMoment | aesd-char-driver/main.c:237-296 | under every schedule, at every step: no block freed twice, none leaked, no slot points to a freed block, no two share one, each slot's block holds its bytes, and the staging block is also in the ring exactly between the insertion and the clearing of the pointer |
| ProtocolBlocks.UnloadFreesAll | aesd-char-driver/main.c:427-431 | once all calls have returned, no two of the pointers that unloading frees are the same, none is free yet, and together with those freed before they are all blocks ever handed out |

## Left out

- Kernel registration, `container_of`, ioctl number encoding and debug output: no property lives there. The
  ioctl's command and `copy_from_user` are two booleans, `copy_to_user` is a number of bytes not copied.
- Module initialisation failure and the read-ahead of one past the array in the clean-up macro.
- Freed memory is never handed out again: `kmalloc` returns blocks never seen before.
- Protocol: storing a segment is one step, because only the holder of `entryMutex` touches the stage.
  `entry.size` is left out: every write sets it to the same constant before it locks.
- EchoLaw: states sequential sessions only, because `aesd_release` resets the shared position without a lock,
  so that a session another one overlaps can lose its seek position at any moment
  (`ProtocolCalls.CloseLosesSeek`).
- WritesTranscript: states sessions without seeks and without interrupted replies, for which it gives each reply
  outright; `Answers.SessionTranscript` is about all others.
- SessionTranscript: of a reply whose read is interrupted it states that it is a prefix; how long it is,
  `Replies.InterruptedReply` and `Answers.ReplyIs` say.
- ProcessBuffer: the server's own buffers never fault, so `copy_to_user` and `copy_from_user` copy everything.
  `FindSeek` is an arbitrary function of the bytes from a segment's start to the end of the buffer.
- ServeConnection: a receive that times out or is told to try again changes nothing, so it is no round; the
  shutdown flag that ends the loop early is left out.
- Server's `FileMutex`, `fsync`, the results of `send`, `pthread_join`, sockets, signals, the timestamper and
  the memory-mapped build variant.
- Failing `malloc` in `AddConnection`, which the code does not check.
