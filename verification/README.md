# The aesd character device, its driver and its socket server

A Dafny model of the device of `aesd-char-driver/` and of the server of `server/aesdsocket.c`, in
layers. Each layer is proved against the one below it.

| file | contents |
|---|---|
| `Bytes.dfy` | byte strings and lists of them |
| `CircularBuffer.dfy` | the ring of (pointer, size) entries: the struct as a value, its closed form in the list of adds, search as flat indexing, and the class updated in place |
| `DeviceSpec.dfy` | what each system call does, on byte strings alone: no ring, no heap, no lock |
| `DeviceRuns.dfy` | runs of calls: conservation, segmentation, reads as slices of the accepted history |
| `KernelHeap.dfy`, `Driver.dfy` | kmalloc, krealloc, kfree; the device updated in place, every file operation proved to be the call of `DeviceSpec` it stands for |
| `Interleaving.dfy` | any number of calls at once, as fine-grained steps over shared memory |
| `Linearizability.dfy`, `LockOrder.dfy` | the invariant of those steps, and the theorems about whole interleaved runs |
| `CallProgress.dfy` | every call of such a run takes a bounded number of steps, and all of them can always end |
| `StalePointer.dfy` | a run in which the device, inside a critical section, represents nothing |
| `Receive.dfy`, `Descriptors.dfy`, `ThreadList.dfy`, `Server.dfy` | the server: receive buffer, descriptor table, thread list, one connection, the accept loop, and the end-to-end reply theorem |
| `AcceptLoop.dfy` | main and its workers as steps over the two mutexes, the driver's lock and the flag `ioctl_just_performed` |
| `ReplyFlags.dfy` | exactly when that flag is safe, as a condition on which node allocations and joins succeed |
| `ServerProgress.dfy` | main and its workers get on: connections are replied to and end, the next is accepted, a signal ends the loop |

`dafny verify dfyconfig.toml` verifies the project.

## How to read it

* The capacity `N` (AESDCHAR_MAX_WRITE_OPERATIONS_SUPPORTED) is a constant of which only
  1 <= N <= 255 is known; the source sets 10. Ring indices stay below N, so they fit the source's
  `uint8_t`. `Wrap` is `% N` for the sums the code forms (`WrapIsMod`).
* `Log` is everything the device ever committed, plus the partial write. The ring shows the last N
  messages of it. `Sys` adds a position for each open file, and `Do` is one call.
* What the environment decides is an argument, never an assumption: which kernel service fails,
  which copy faults, which address the allocator returns, how many bytes a `send` takes. Theorems
  quantify over all of it. An address may be reused after it was freed.
* In `Interleaving.dfy` a run is any list of events. A step that would touch a block that is not
  live, or reach outside a block, sets `broken`; `Linearizable` says that never happens.
* The code's one leak is modelled as it is: the ring's add always returns null and the driver
  ignores it, so an evicted block stays allocated for ever. Heap statements name those blocks
  (`hist[..Oldest(|hist|)]`) instead of hiding them.

## Where the code and its documentation differ

The model follows the code.

* The top-level README.md (Data Transmission) promises that partial sends are handled and EINTR is
  managed. `server/aesdsocket.c:308-317` neither resumes a short `send` nor repeats an interrupted
  one: those bytes are lost. `Server.EndToEnd` gives the exact condition: a reply is complete if
  and only if every chunk is read and taken whole by its `send`; `Server.InterruptedReply` is a
  connection that loses its whole reply to one interrupted `send`.
* The same README (Memory Management) promises that all memory is freed. That is so if and only if
  at most N messages were ever committed (`Driver.AesdDevice.Cleanup`, `LockOrder.NothingLeakedIff`);
  otherwise the evicted blocks are left. `Driver.LoadWriteUnload` shows both sides on runs of n
  one-line writes.
* The comment at `aesd-char-driver/aesd-circular-buffer.c:84` announces that the replaced pointer
  is saved; no code does (`CircularBuffers.CircularBuffer.AddEntry`).
* The reply's use of `ioctl_just_performed` is right only while connections are serialised, and the
  code does not insist on that: a failed node allocation is logged (`server/aesdsocket.c:110-114`)
  and a failed join skipped (`server/aesdsocket.c:126-131`), and main goes on to the next accept.
  `ReplyFlags.FlagsRightIff` gives the exact condition on which of these succeed.

## Model

| member | source | states |
|---|---|---|
| `CircularBuffers.WrapIsMod` | aesd-char-driver/aesd-circular-buffer.c:55 | The index step used throughout is the remainder by the capacity, which is what the source computes; serves `CircularBuffers.ClosedForm` and the search |
| `CircularBuffers.ClosedForm` | aesd-char-driver/aesd-circular-buffer.c:77-113 | After n adds to an initialised ring: in_offs = n mod N, full iff n >= N, out_offs = 0 until full and in_offs from then on, slot k mod N holds add k for the last N adds, untouched slots are still zero |
| `CircularBuffers.AddKeepsClosedForm` | aesd-char-driver/aesd-circular-buffer.c:85-99 | One add takes the closed form for a list of adds to the closed form for the longer list, for empty, partly filled and wrapped rings |
| `CircularBuffers.LiveIsLastAdds` | aesd-char-driver/main.c:315-324 | The entries read oldest to newest off the struct are the last min(n, N) adds in order, and the count the ioctl takes from full and in_offs is their number |
| `CircularBuffers.LiveAt` | aesd-char-driver/main.c:324 | The i-th oldest entry is i slots after out_offs, wrapping |
| `CircularBuffers.SearchIsFlatIndexing` | aesd-char-driver/aesd-circular-buffer.c:29-68 | The search returns null iff the offset is at or past the total; otherwise the slot and offset of the one byte at that place of the oldest-to-newest concatenation |
| `CircularBuffers.AddressUnique` | aesd-char-driver/aesd-circular-buffer.c:22-23 | Each place of the concatenation is one byte of one entry |
| `CircularBuffers.PhysicalSumIsLogicalSum` | aesd-char-driver/aesd-circular-buffer.h:75-78 | Summing sizes over all slots in physical order gives the length of the logical concatenation |
| `CircularBuffers.SlotHoldsLiveOrNull` | aesd-char-driver/aesd-circular-buffer.h:75-78 | Every physical slot holds one named live entry or nothing |
| `CircularBuffers.CircularBuffer.constructor` | aesd-char-driver/aesd-circular-buffer.c:110-113 | The zeroed struct is the closed form of no adds |
| `CircularBuffers.CircularBuffer.FindEntryOffsetForFpos` | aesd-char-driver/aesd-circular-buffer.c:29-68 | The loop computes the search, visits slots in logical order from out_offs, each at most once and only live ones, and stops at the slot it returns |
| `CircularBuffers.CircularBuffer.AddEntry` | aesd-char-driver/aesd-circular-buffer.c:77-104 | The in-place add appends to the list of adds and always returns null |
| `DeviceSpec.PiecesAreTheSlice` | aesd-char-driver/main.c:86-116 | The pieces a read copies, entry by entry, are non-empty and concatenate to the slice of the contents at the position |
| `DeviceSpec.PieceStep` | aesd-char-driver/main.c:96-112 | One turn of the read loop copies the rest of the current entry or what is left of the count |
| `DeviceSpec.ReadIsSlice` | aesd-char-driver/main.c:62-129 | A read without fault returns min(count, max(0, total - p)) contiguous bytes and moves the position by as many; it faults iff the faulting copy is one it makes, and has then moved past exactly the pieces before, a proper prefix |
| `DeviceSpec.ChunkedRead` | aesd-char-driver/main.c:87-121 | Reading a bytes and then b bytes is reading a + b bytes, result and state |
| `DeviceSpec.DrainIsSuffix` | aesd-char-driver/main.c:87-121 | Reading chunk after chunk until 0, for any chunk size and any cut into entries, gives the exact suffix from the position |
| `DeviceSpec.SeekThenSearch` | aesd-char-driver/main.c:314-339 | Searching at the position the ioctl stores returns slot (out_offs + cmd) mod N and the given offset |
| `DeviceSpec.EveryPositionHasOneSeek` | aesd-char-driver/main.c:314-339 | A position is below the total iff some command and offset are accepted for it, and then exactly one pair is |
| `DeviceSpec.SuffixFromSeekPos` | aesd-char-driver/main.c:332-339 | From the stored position on, the contents are the rest of that message and all later ones |
| `DeviceSpec.SeekEndIsTheEnd` | aesd-char-driver/main.c:261-288 | SEEK_END with offset 0 lands on the physical total, the first position where the search finds nothing and a read returns 0 |
| `DeviceSpec.SeekBases` | aesd-char-driver/main.c:267-293 | Which position each whence is relative to; targets outside [0, total] and unknown whences answer -EINVAL and change nothing |
| `DeviceSpec.SeekSetThenDrain` | aesd-char-driver/main.c:268-269 | After SEEK_SET p, reading until nothing comes gives the contents from byte p on |
| `DeviceSpec.SeekCurTells` | aesd-char-driver/main.c:271-272 | SEEK_CUR with 0 tells the position and changes nothing |
| `DeviceSpec.SeekSetThenCur` | aesd-char-driver/main.c:268-288 | SEEK_SET p then SEEK_CUR d is SEEK_SET p + d, or leaves p when that is refused |
| `DeviceSpec.SeekEndThenDrain` | aesd-char-driver/main.c:274-275 | SEEK_END -k leaves exactly the last k bytes to read |
| `DeviceSpec.WriteAcceptedIff` | aesd-char-driver/main.c:143-247 | A write is accepted iff nothing it needs fails, growing memory being needed only after a partial write; the error of each failure; a failing write changes nothing (what `Driver.AesdDevice.Write` is proved against) |
| `DeviceSpec.ReadRefusedIff` | aesd-char-driver/main.c:69-84 | A read is refused iff its position is negative, its count empty or its lock interrupted, each with its error and no effect (what `Driver.AesdDevice.Read` is proved against) |
| `DeviceSpec.IoctlAcceptedIff` | aesd-char-driver/main.c:305-343 | A seek to byte off of message cmd is accepted iff the ring holds that byte, and moves the position to the number of bytes before it; each refusal has its error and no effect |
| `DeviceRuns.SplitSnoc` | aesd-char-driver/main.c:177-236 | Committing on every write with a newline, one write at a time, is cutting the whole list of writes after each newline-containing one |
| `DeviceRuns.SplitConserves` | aesd-char-driver/main.c:177-236 | Cutting a list of writes loses and invents nothing, and the remainder has no newline |
| `DeviceRuns.RunSegments` | aesd-char-driver/main.c:135-248 | After any run of calls, failures included, messages and partial write are the cut list of accepted writes |
| `DeviceRuns.StreamConservation` | aesd-char-driver/main.c:135-248 | After any run: evicted, then ring, then partial is the concatenation of the successful writes; the ring is the last min(n, N) groups; the partial has no newline |
| `DeviceRuns.ReadsRefineHistory` | aesd-char-driver/main.c:62-129 | In any run of writes, reads and seeks a read at p returns the slice of everything accepted that starts at (evicted bytes + p), also when evictions happen between reads |
| `Driver.HitMeaning` | aesd-char-driver/main.c:88-97 | What the search hits is, in memory, the byte at that position of the stored messages, in a live block of the recorded size |
| `Driver.ReadTurn` | aesd-char-driver/main.c:87-115 | A turn of the read loop, on ring and heap, takes exactly the next piece of the slice, or nothing is left |
| `Driver.AppendRepresents` | aesd-char-driver/main.c:177-236 | A block holding partial plus data, made the newest entry or the partial write, gives a device that represents the log after the write |
| `Driver.SlotsFreeable` | aesd-char-driver/main.c:408-420 | Each slot the cleanup frees names a live block that is neither the partial write nor another slot's |
| `Driver.LeftAfterCleanup` | aesd-char-driver/main.c:408-420 | Of the device's blocks exactly the evicted ones are neither in a slot nor the partial write |
| `Driver.AesdDevice.constructor` | aesd-char-driver/main.c:384-390 | A loaded device is empty and owns no block |
| `Driver.AesdDevice.Write` | aesd-char-driver/main.c:135-248 | The result for every combination of failures; a failing write leaves ring, partial and the whole heap as they were; a successful one appends to the log; no foreign block is touched |
| `Driver.AesdDevice.Append` | aesd-char-driver/main.c:176-247 | The critical section: both cases, krealloc failure, and that the temporary ends up owned by the device or freed |
| `Driver.AesdDevice.Read` | aesd-char-driver/main.c:62-129 | The multi-entry loop terminates and leaves in the user buffer, and in the position, what the specification's read gives, also when a copy faults midway |
| `Driver.AesdDevice.Llseek` | aesd-char-driver/main.c:251-294 | For each whence the base its target is relative to; accepts exactly targets in [0, total], total being the length of the contents, and otherwise leaves the position alone |
| `Driver.AesdDevice.TotalSize` | aesd-char-driver/main.c:260-265 | The FOREACH sum is the length of the contents |
| `Driver.AesdDevice.Ioctl` | aesd-char-driver/main.c:296-344 | Error codes, and otherwise the position of the given byte of the given stored message |
| `Driver.AesdDevice.Cleanup` | aesd-char-driver/main.c:400-424 | Every free is of a live block; the ring's blocks and the partial are gone; the device's remaining blocks are exactly the evicted ones; everything it owned is freed iff at most N messages were ever committed |
| `Driver.NoneEvictedIff` | aesd-char-driver/main.c:186-225 | No block has been evicted iff at most N messages were committed; evicted blocks are the device's own and never the partial |
| `Driver.LoadWriteUnload` | aesd-char-driver/main.c:400-424 | Load, write n one-line messages, unload: the allocator has everything back iff n <= N |
| `Linearizability.EarlyIsNoEffect` | aesd-char-driver/main.c:143-174 | A call that fails before the lock does, run alone in any state, nothing and returns the same |
| `Linearizability.OutsideIsPrivate` | aesd-char-driver/main.c:154-174 | A step of a thread outside the lock changes only that thread's temporary block |
| `Linearizability.PrivateKeepsCs` | aesd-char-driver/main.c:168-240 | What holds at a lock holder's step, however broken the device is there, survives any other thread's step |
| `Linearizability.WriteLockedInside` | aesd-char-driver/main.c:179-216 | First steps of the locked write: direct commit, keep as partial, krealloc failing, moving or in place |
| `Linearizability.WriteHoldingInside` | aesd-char-driver/main.c:209-236 | The steps after krealloc, up to a device that represents the log after the write |
| `Linearizability.LocalInside` | aesd-char-driver/main.c:80-339 | Every step under the lock, of all four operations, leads to what the next step relies on and touches no other thread's block (that it also leads on is `CallProgress.CallIsBounded`) |
| `LockOrder.StepKeeps` | aesd-char-driver/main.c:62-344 | Every step of every thread keeps the invariant |
| `LockOrder.Linearizable` | aesd-char-driver/main.c:62-344 | In every interleaving no step touches memory that is not live; the finished calls in lock order are a sequential run with the same outcomes; with the lock free, memory represents the state that run ends in (and calls do finish: `CallProgress.AllCanFinish`) |
| `LockOrder.ResultsAreSequential` | aesd-char-driver/main.c:62-344 | Each finished call returned what it returns at its place in lock order, or, if it never took the lock, what it returns alone |
| `LockOrder.EachCallLocksOnce` | aesd-char-driver/main.c:80-312 | No call takes the lock twice |
| `LockOrder.RealTimeOrder` | aesd-char-driver/main.c:80-312 | Lock order respects time: a call that has had the lock before another gets to it comes first |
| `CallProgress.CallIsBounded` | aesd-char-driver/main.c:62-344 | In every interleaving a call takes at most so many steps that change anything: a fixed number for a write, three for each byte asked for in a read, one for each slot or command in the seeks |
| `CallProgress.CanStep` | aesd-char-driver/main.c:62-344 | In every state a run reaches, a call that has not ended can step unless another holds the lock |
| `CallProgress.AllCanFinish` | aesd-char-driver/main.c:62-344 | From every state a run reaches, some continuation ends all calls and frees the lock |
| `LockOrder.NothingElseAllocated` | aesd-char-driver/main.c:154-247 | When all calls have ended, the live blocks are the ring's, the partial and the evicted ones, whatever failed on the way |
| `LockOrder.NothingLeakedIff` | aesd-char-driver/main.c:154-247 | And they are just the ring's and the partial iff at most N messages were committed, in every interleaving |
| `LockOrder.StaleInside` | aesd-char-driver/main.c:201-233 | After krealloc moved the block, the partial pointer names no live block and memory represents no state; this is what `LockOrder.Linearizable` has to get past, and `StalePointer.StaleReached` is a run that gets there |
| `StalePointer.NothingRepresentedInside` | aesd-char-driver/main.c:201-233 | In every run, from krealloc until the partial pointer is stored again, memory represents no state |
| `StalePointer.StaleReached` | aesd-char-driver/main.c:201-233 | Two overlapping newline-less writes reach, from a fresh device, a state whose partial pointer names a released block |
| `Receive.ClientSocket.Recv` | server/aesdsocket.c:208-209 | recv, always called with room for at least one byte, takes the next bytes of the stream |
| `Receive.ReceiveMessage` | server/aesdsocket.c:197-238 | The message is the received chunks up to and including the first with a newline; on every exit, failures included, the doubling buffer has room for what was received and a NUL, at most twice that, and its doublings add up; with memory available, a message iff a newline arrives, and otherwise it is missed only at the doubling that fails, with the buffer full |
| `Receive.DoubleAgain` | server/aesdsocket.c:227-237 | Capacity is 1024 times a power of two and the outgrown capacities add up to capacity - 1024; keeps the invariant of `Receive.ReceiveMessage` |
| `Receive.TakeChunk` | server/aesdsocket.c:220-225 | A chunk either completes the message or leaves the loop waiting |
| `Descriptors.LowestFree` | server/aesdsocket.c:88-289 | The lowest free number is not open, and every smaller one is |
| `ThreadLists.SurvivorsAreNodes` | server/aesdsocket.c:121-134 | What survives a join pass are nodes of the list that were not joined |
| `ThreadLists.AllJoined` | server/aesdsocket.c:121-134 | The list is empty after a pass iff every join succeeded |
| `ThreadLists.ThreadList.NodeAdd` | server/aesdsocket.c:109-119 | Insertion at the head, or nothing when malloc fails |
| `ThreadLists.ThreadList.Remove` | server/aesdsocket.c:128 | The walk-and-unlink removal takes out exactly that node and keeps the links of the rest |
| `ThreadLists.ThreadList.Join` | server/aesdsocket.c:121-134 | Visits every node once in order, reads no freed node, frees the joined ones, and leaves exactly the others in order |
| `Server.ReplyTurn` | server/aesdsocket.c:307-317 | One turn of the reply loop: whatever the send took of the chunk, the rest of it is never sent and the reply goes on with the next chunk; a failed send ends it; the invariant of `Server.Server.ReplyLoop` |
| `Server.CompleteIff` | server/aesdsocket.c:307-317 | What arrives of a reply is all of it iff every chunk is read and sent whole: a short or interrupted send is never made up for |
| `Server.ArrivingInChunks` | server/aesdsocket.c:307-317 | In closed form, what arrives is the concatenation, over the chunks before the first failed read or send, of the first n bytes of each, n being what its send returned, and none of a chunk whose send was interrupted |
| `Server.InterruptedReply` | server/aesdsocket.c:309-311 | A connection whose message is stored and whose only send is interrupted gets an empty reply, every other call succeeding |
| `Server.Server.WriteMessage` | server/aesdsocket.c:262-270 | One device write per message: all of it is accepted, or the device is unchanged |
| `Server.Server.SendRcv` | server/aesdsocket.c:197-276 | The text after the command word decides: two numbers x, y are accepted iff stored message x has a byte y, and the position is then that byte; anything else after it is refused; other messages are written; on success the flag is the one for this request; no message, no success |
| `Server.Server.ReplyLoop` | server/aesdsocket.c:307-317 | The peer receives, of each chunk of the contents from the position on, exactly what its send took, up to the first read or send that fails; the loop ends |
| `Server.Server.Reopen` | server/aesdsocket.c:287-296 | Closing and reopening yields the same descriptor, at position 0 |
| `Server.Server.ReturnToClient` | server/aesdsocket.c:278-322 | Replies from 0 after a write and from the sought position after a seek, and resets the flag |
| `Server.Server.ThreadOperation` | server/aesdsocket.c:83-107 | A whole connection: log and bytes sent are the expected ones, without a message nothing is sent or stored, and on every path the descriptor table is as before accept |
| `Server.Server.ServeOne` | server/aesdsocket.c:391-411 | One turn of the accept loop, failures of malloc, pthread_create, node allocation and join included: the answer, none without a thread or a message, the descriptors as they were, and an empty list iff nothing listed was left unjoined |
| `Server.Server.AcceptLoop` | server/aesdsocket.c:375-412 | When every connection before the last is listed and joined, every connection is answered from the log its predecessors left, and the partial write is empty at the end |
| `Server.FramedCommitsOnce` | server/aesdsocket.c:263 | A received message written in one call commits exactly one entry, the pending partial followed by the message |
| `Server.LogIsStored` | server/aesdsocket.c:375-412 | Between connections the partial write is empty and the log is the list of stored messages |
| `Server.EndToEnd` | server/aesdsocket.c:197-322 | Stated on the message itself: after the command word and two numbers x, y the reply is everything from byte y of stored message x on, or nothing; after the command word and anything else, nothing; any other message is answered with the last min(n, N) stored messages including itself; no message or a failed call, with nothing; exactly what the sends took of that arrives, and it is complete iff every chunk was read and sent whole |
| `Server.NoMessageNoReply` | server/aesdsocket.c:210-218 | A connection that ends before its newline, or gets no thread, is sent nothing and leaves the log as it was |
| `AcceptLoop.StepKeepsLocks` | server/aesdsocket.c:240-320 | Each mutex is held by exactly the thread that is between its lock and unlock |
| `AcceptLoop.ServedOneAtATime` | server/aesdsocket.c:375-412 | While no node allocation and no join has failed: at accept no worker is alive, never two are, and every reply went by the flag its own connection set (`ReplyFlags.FlagsRightIff` has the exact condition) |
| `AcceptLoop.WorkersTakeTurns` | server/aesdsocket.c:375-412 | In such a run the workers' steps come strictly in connection order: none falls between two steps of another worker |
| `AcceptLoop.ListIsUnjoined` | server/aesdsocket.c:109-134 | In every run, failures included, the list holds exactly the threads put into it and not yet joined |
| `ReplyFlags.FlagsRightIff` | server/aesdsocket.c:109-134 | For any schedule of allocation and join outcomes: every reply of every run with at most n connections goes by its own connection's flag iff each connection before the last gets its list node and is joined at the first attempt |
| `ReplyFlags.FlagsAlwaysRightIff` | server/aesdsocket.c:109-134 | Without a bound on the connections: iff every allocation and every first join succeeds |
| `ReplyFlags.FlagCanBeStolen` | server/aesdsocket.c:109-134 | The first connection that gets no node, or whose join fails, can be a seek whose reply finds the flag cleared by the next connection |
| `ReplyFlags.ServedInTurn` | server/aesdsocket.c:375-412 | Under that condition the workers' steps come in connection order, the last connection included, which is the order in which `Server.Server.AcceptLoop` serves them |
| `AcceptLoop.NoWaitCycle` | server/aesdsocket.c:109-134 | In every run, failures included, no chain of lock and join waits returns to its start |
| `AcceptLoop.SomeoneMoves` | server/aesdsocket.c:240-320 | As long as a worker is alive, some worker can take a step |
| `AcceptLoop.ServerMoves` | server/aesdsocket.c:375-415 | Until main has left its loop and the last worker is dead, some step changes the state; with no worker alive, a step of main's (that the steps lead somewhere is `ServerProgress.ServerGetsThrough`) |
| `ServerProgress.ReadsGoOn` | server/aesdsocket.c:308-317 | After a read that returned something the worker is before the next read, everything else as it was |
| `ServerProgress.FailedCallEnds` | server/aesdsocket.c:83-321 | A worker whose read returns nothing, or any of whose calls fails, is dead two of its own steps later, holds no lock and has not touched the flag |
| `ServerProgress.ServerGetsThrough` | server/aesdsocket.c:375-415 | From every reachable state, calls that succeed lead to all workers dead, every reply that was to come made, the flag taken down, and main at accept, or out of its loop after a signal |
| `ServerProgress.EveryoneIsServed` | server/aesdsocket.c:375-411 | For any list of seek and store connections there is a run, no call failing, in which each replies by its own flag and ends, and main is at accept with an empty list and the flag down |
| `ServerProgress.NoneAfterExit` | server/aesdsocket.c:375-415 | Once main has seen the signal it never starts another worker |

## Left out

- Module registration, cdev setup, open and release bookkeeping, printk and the debug counter: no state that matters.
- Null-pointer argument checks and the cases of a null file or device: single branches; arguments are taken to be present.
- Overflow of size_t and loff_t sums: sizes and positions are unbounded integers.
- The kernel's copying of a file position in and out around a read: positions are those the driver itself reads and writes, and a fresh open starts at 0.
- The bytes copy_to_user or copy_from_user may have moved before they fault: the user buffer past the pieces copied before is unspecified.
- Faults on the server's own buffers: `Server.dfy` passes valid memory to the device, so its calls fail only by allocation or an interrupted lock.
- The numbers sscanf accepts: the parser is an arbitrary function from the text after the command word to two numbers or a failure.
- The composition of `Server.dfy` with other users of the device: the server is its sole user there; other users appear in `Interleaving.dfy`.
- Server.Server.AcceptLoop: serves each connection whole; that the steps really come in this order is `ReplyFlags.ServedInTurn`, on a machine that has the locks and the flag but not the data, and the two are not joined by a refinement.
- Server.Server.ServeOne: a thread that is not joined is run to its end all the same, which is sound for the last connection only.
- Freed server buffers: heap ownership is modelled for the driver only.
- Fairness: `CallProgress.AllCanFinish` and `ServerProgress.ServerGetsThrough` say a continuation exists, not that a scheduler takes it.
- Daemonisation, signals beyond leaving the accept loop, address lookup, syslog, and the build that uses a regular file instead of the device.
- writer.c, systemcalls.c, threading.c, the driver's own test programs, shell scripts and Makefiles: each only forwards to a system call or a tool and keeps no state of its own.
