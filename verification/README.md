# Transparent proxy tunnel: a verified model

The repository tunnels TCP connections of wifi clients to a VPS: the wifi side (`server/`) reads a
client's bytes, carries them in KCP messages inside encrypted UDP packets, and the VPS side
(`remoteVps/`) writes them to the target, and back. Every worker thread owns a slab allocator, a timing
wheel, a UDP socket and its sessions. This project models those parts and proves what they are for.

| file | what it holds |
|---|---|
| `Wire.dfy` | the bytes of the messages two session halves exchange |
| `Relay.dfy` | what both session halves share: the read pump paused by KCP backlog, the receive loop, the write queue |
| `Receive.dfy` | which messages a receive loop can take, and why |
| `Kcp.dfy` | the contracts of a KCP control block and a TCP socket |
| `WifiSession.dfy`, `VpsSession.dfy` | the two session state machines, as values and as objects |
| `Pipe.dfy` | both halves and the two channels between them, over whole runs |
| `SizeClasses.dfy` | sizes, counts and addresses of the allocator |
| `SlabSpec.dfy`, `PoolSpec.dfy` | one size class, and the pool of four, as values; whole runs |
| `PoolData.dfy` | what the allocator may change in memory, and what clients read back, over whole runs |
| `MemoryPool.dfy` | the allocator in memory: block headers as objects, first words of nodes in one address space |
| `WheelSpec.dfy`, `WheelTime.dfy` | the timing wheel as 1000 sequences; due ticks; whole runs |
| `TimeWheel.dfy` | the wheel as intrusive doubly linked lists |
| `SessionTimers.dfy`, `TimerHost.dfy` | sessions on the wheel, over whole runs and on the real lists |
| `Packet.dfy` | packet layout, in-place encryption and decryption, framing |
| `UdpSender.dfy` | the bounded UDP send queue |
| `Demux.dfy` | routing datagrams to sessions by id, down to the receive buffer |
| `Datagrams.dfy` | routing over whole runs of what the sockets deliver: authenticity, honest senders |
| `Sequences.dfy` | sequences without repetitions |

Each part is modelled twice: a value with functions, about which the properties are proved, and classes
with fields, loops and links, whose methods are proved to compute exactly those functions. What the
environment decides (results of socket operations, clock and `ikcp_check` values, random keys and ids,
the addresses `aligned_alloc` returns, how many segments a KCP message takes) is a parameter, so every
statement holds for all of its choices.

## What was found

* **No lost wakeup.** On an open session exactly one of "reading" and "paused" holds, in every state of
  every run, if and only if every successful read so far brought bytes (`Pipe.PumpsNeverStall`). The handlers
  tolerate a read that completes without error and without bytes by not reading again
  (`server/session.cpp:140-142`, `remoteVps/session.cpp:116-118`). The model allows that completion because
  the handlers have a branch for it; asio reports the end of a TCP stream as an error, so no input is
  claimed to cause it.
* **Pop of an empty queue.** On the VPS side a write that succeeds after the session was closed clears the
  queue and then pops it (`remoteVps/session.cpp:89-98`); the wifi side pops first. It happens exactly
  when the session is closed and the write succeeded (`VpsSpec.WriteDoneKeepsInv`, `Pipe.SingleWriter`);
  `Pipe.PopAfterClose` is such a run from the start: one byte is being written to the target when reading
  from the target fails, and the write then completes.
* **Messages that cannot be taken.** A receive loop takes a message inside the area the pool gives for its
  size, and finds every field it looks at inside the message, if and only if the message is between 4 and
  2048 bytes long and, on the VPS side, a newSession message at least 10 (`Receive.ReceivableExact`; for
  messages that are too long, `Receive.TooLong`). The sources check neither. The models of the sessions
  accept any message, take exactly those before the first that is not receivable (`Relay.TakenExact`), and
  claim nothing after it: `VpsSpec.OversizeOverruns` is such a run. An empty message is different: the loop
  takes its size for "nothing there", and takes nothing any more (`VpsSpec.BlockedForGood`). Neither ever
  happens between the two halves of the tunnel (`Pipe.RequestsFit`).
* **Failed handshake.** A connect that fails is logged and nothing else happens
  (`remoteVps/session.cpp:192-195`): the session stays open, and nothing is ever written to the target or
  read from it (`Pipe.FailedForGood`). It is one of the exact conditions under which the tunnel can no
  longer be drained (`Pipe.DrainableExactly`).
* **Two handshakes.** The VPS side starts a connection for every newSession message until one completes;
  nothing in the handler stops two successes from starting two reads into one buffer
  (`VpsSpec.TwoHandshakesTwoReaders`). A connect keeps the
  session's invariant exactly when it is the first to succeed (`VpsSpec.ConnectKeepsInv`); a further one
  leaves a single reader and a single writer exactly when the read loop had ended and nothing was queued
  (`VpsSpec.ConnectExact`). Against any peer, no more connects succeed than sessions were announced, and
  with at most one announcement the session is safe over every run, up to a message it cannot take
  (`VpsSpec.SafeWithAnyPeer`); the wifi side announces once (`Pipe.EndToEnd`).
* **UDP stall.** A send error returns without sending the next packet. If another one is queued nothing
  is ever sent again, because every later offer finds the queue non-empty (`UdpSpec.RunKeepsInv`,
  which says exactly when; `UdpSpec.NoFailure` when never); `UdpSpec.StalledRun` is such a run.
* **Receiving ends.** On the wifi side one receive error ends receiving for the whole worker
  (`server/worker.cpp:132-135`); the VPS side listens again. A receive is outstanding exactly when no error
  has occurred (`Demux.ReceivesUntilError`); `Demux.WifiStopsReceiving` is such a run.
* **Delays over a revolution.** A remount fires after exactly the ticks asked for if and only if they are at
  most 1000, a mount between ticks if and only if they are fewer than 1000 (`WheelTime.DelayExact`).
  `start` passes an absolute clock value where a delay is expected; that mount is only known to fire
  within one revolution (`WheelTime.FirstMountWithinRevolution`).
* **Size table.** The packed table serves a request if and only if it is at most 2048 bytes
  (`SizeClasses.ClassFits`), which all messages of the tunnel are (`Pipe.RequestsFit`).
* **Unchecked decryption.** The workers route a datagram before looking at the result of `doDecrypt`. So on
  the VPS side the ids that get a session are exactly those named by some datagram, authentic or not
  (`Datagrams.SessionsFromNames`); `Datagrams.RejectedGetsSession` is a rejected datagram that gets one, with
  an input of size -17. A datagram is accepted exactly when its tag is that of its contents (`Packet.AcceptedExact`), so one whose
  tag was changed is rejected (`Packet.TamperedRejected`). The data are safe all the same: every segment a session is given came in an
  accepted datagram for its id (`Datagrams.SegmentsAuthentic`), and framed segments reach exactly the
  session they were framed for, in order (`Demux.FrameArrives`, `Datagrams.SegmentsReachTheirSession`).

## Model

| member | source | states |
|---|---|---|
| Pipe.EndToEnd | server/session.cpp:60-69 | in every state of every run: bytes written to the target are a prefix of the bytes the reads from the client brought, and vice versa; at most one connection is attempted, to the endpoint the client asked for; nothing is written before it succeeds |
| Pipe.NothingLost | remoteVps/session.cpp:69-104 | conservation: while the receiving half is open, bytes read on one side equal bytes written, queued and in the channel on the other, in order, both ways |
| Pipe.HistoriesExact | server/session.cpp:111-126 | over every run, both halves: the bytes read are those its reads brought; on an open session after k successful writes exactly the first k messages that carry bytes are written and the others queued, in order: one completion, one message |
| Pipe.BacklogExact | server/session.cpp:130-177 | over every run, both halves: a session is closed iff a read or a write of it failed; while open, its backlog is what it sent less what was acknowledged |
| Pipe.ClosedWritesNoMore | server/session.cpp:114-120 | over every run, both halves: a closed session stays closed and starts no further write |
| Pipe.PumpsNeverStall | server/session.cpp:130-177 | over every run, both halves: at most one read outstanding, never while paused; paused only with backlog of at least 85; backlog at most 127+F; open and connected implies exactly one of reading and paused, if and only if every successful read of the run brought bytes |
| Pipe.SingleWriter | server/session.cpp:99-128 | over every run, both halves: one write in flight iff something is queued (VPS: and connected); popping never meets an empty queue except on the VPS exactly when a write succeeds after the close |
| Pipe.RequestsFit | remoteVps/session.cpp:154-167 | every message in transit fits the 2048-byte buffer and is long enough for each field its receiver reads, so both receive loops take all that reaches them and never stop |
| Pipe.RunKeepsInv | remoteVps/session.cpp:139-206 | all of the above rest on one invariant that every event of both sessions keeps, over every run |
| Pipe.ReadSends | server/session.cpp:133-149 | a completed read puts exactly the bytes it read into the channel, as at most one message that fits a buffer |
| Pipe.TakeAllConnects | remoteVps/session.cpp:168-176 | a stream that starts with the announcement and goes on with data starts exactly one connection, to the announced endpoint |
| Pipe.DrainableExactly | server/session.cpp:99-177 | in every state of every run: some continuation delivers every byte read so far, both ways, and leaves both ends reading, iff both sessions are open, no read came back empty and the handshake has not failed |
| Pipe.Drains | remoteVps/session.cpp:69-152 | from any state of the invariant that meets that condition, such a continuation exists |
| Pipe.FailedForGood | remoteVps/session.cpp:190-195 | after a failed handshake nothing is ever written to the target or read from it, whatever happens next, and the session does not close |
| Pipe.PopAfterClose | remoteVps/session.cpp:88-98 | concrete run from the start: a write that succeeds after the session closed pops an empty queue |
| Wire.NewSessionRoundTrip | server/session.cpp:61-65 | ip and port survive htonl/htons and the receiver's ntohl/ntohs |
| Wire.NormalRoundTrip | server/session.cpp:143-145 | the payload behind a normal status is what the receiver extracts |
| Wire.WireFormat | server/session.h:48-71 | the bytes of both messages, in numbers: status, address and port with the most significant byte first |
| Wire.BytesConcat | server/session.cpp:107-112 | message boundaries do not change the byte stream |
| Relay.NoLostWakeup | server/session.cpp:153-177 | exactly when a session is either reading or paused |
| Relay.PausesExactly | server/session.cpp:143-159 | a read that brings bytes pauses reading iff the backlog, with what it sent, is at least 128, and goes on otherwise |
| Relay.ResumesExactly | server/session.cpp:170-175 | a paused session stays paused after an acknowledgement iff at least 85 segments remain, and reads again otherwise |
| Relay.ReadDoneKeepsPump | server/session.cpp:133-149 | a read completion keeps one reader, the pause threshold 128 and the backlog bound |
| Relay.InputKeepsPump | server/session.cpp:166-175 | an acknowledgement resumes reading below 85, once |
| Relay.TakenExact | server/session.cpp:179-203 | a receive loop takes the messages before the first that is not receivable, and all of them iff every one is receivable |
| Relay.EnqueueKeepsQueue | remoteVps/session.cpp:69-80 | queueing a message keeps a single writer and the byte accounting, behind the gate or past it |
| Relay.WriteProgress | server/session.cpp:107-113 | whatever part of the front message reaches the socket, the bytes written stay a prefix of the bytes received |
| WifiSpec.TakeAllKeepsQueue | server/session.cpp:179-203 | for any messages: the receive loop queues every normal message it takes once, in order, touches nothing else, and stops at the first it cannot take |
| WifiSpec.InputKeepsInv | server/session.cpp:162-177 | a datagram with any messages keeps the session invariant, takes what it acknowledges off the backlog and resumes below 85; on a closed session it changes nothing |
| WifiSpec.WriteDoneKeepsInv | server/session.cpp:111-126 | a write completion, partial or not, keeps the invariant; on a closed session it leaves nothing queued and nothing in flight; an error closes, with the bytes that were written accounted for |
| WifiSpec.ReadDoneKeepsInv | server/session.cpp:130-151 | so does a read completion |
| WifiSessions.Session.SendIpAndPortToServer | server/session.cpp:60-69 | the state start leaves: endpoint announced, first read outstanding |
| WifiSessions.Session.OnRead | server/session.cpp:133-150 | the read handler computes the read step and keeps the invariant |
| WifiSessions.Session.OnWrite | server/session.cpp:113-126 | the write handler (pop, clear, close or continue) computes the write step and keeps the invariant |
| WifiSessions.Session.InputToKcp | server/session.cpp:162-177 | the datagram handler computes the input step and keeps the invariant |
| WifiSessions.Session.TryToReadFromKcp | server/session.cpp:179-203 | the receive loop drains KCP and equals taking the messages one by one |
| VpsSpec.TakeAllKeepsQueue | remoteVps/session.cpp:154-188 | for any messages: the receive loop takes those before the first it cannot take, loses none of them, gates writing, and touches only queue and handshake |
| VpsSpec.InputKeepsInv | remoteVps/session.cpp:139-152 | a datagram with any messages keeps the session invariant, takes what it acknowledges off the backlog and resumes below 85; on a closed session it changes nothing |
| VpsSpec.ConnectKeepsInv | remoteVps/session.cpp:190-206 | a successful connect on an open session keeps the invariant every other handler relies on iff it is the first |
| VpsSpec.ConnectExact | remoteVps/session.cpp:190-206 | exactly when a successful connect leaves at most one reader (never while paused) and one writer: it is the first, or nothing is being read, paused or written; on an open session, its read loop has ended and its queue is empty |
| VpsSpec.SafeWithAnyPeer | remoteVps/session.cpp:154-206 | over every run, whatever messages arrive, up to the first that cannot be taken: no more connects succeed than sessions were announced; with at most one announcement there is one reader, one writer, a prefix of the received bytes is written, and a message that cannot be taken was reached iff one arrived while the session was open and its loop running |
| VpsSpec.TriesExactly | remoteVps/session.cpp:168-206 | over every run, whatever the peer sends: until the session is connected it has tried every endpoint announced, in order and once each, and afterwards none more; every try but those completed is outstanding |
| VpsSpec.OversizeOverruns | remoteVps/session.cpp:156-162 | concrete runs: a message longer than 2048 bytes is not receivable |
| VpsSpec.BlockedForGood | remoteVps/session.cpp:155-159 | after an empty message the receive loop takes nothing any more, over every run |
| Receive.ReceivableExact | remoteVps/session.cpp:156-167 | a message fits the area the pool gives for its size, and contains every field looked at, iff it is receivable |
| Receive.TooLong | memoryPool/memoryPool.cpp:54 | which area a message longer than 2048 bytes is given: 2048 bytes below 2304, then 256 |
| VpsSpec.SuccessesBounded | remoteVps/session.cpp:168-176 | over every run, successful connects are at most the announcements received |
| VpsSpec.ConnectFailedKeepsInv | remoteVps/session.cpp:192-195 | a failed connect leaves the session waiting |
| VpsSpec.WriteDoneKeepsInv | remoteVps/session.cpp:86-102 | a write completion keeps the invariant, is undefined exactly when closed and successful, leaves nothing queued or in flight on a closed session, and closes on an error |
| VpsSpec.TwoHandshakesTwoReaders | remoteVps/session.cpp:168-176 | concrete input: two newSession messages give two reads into one buffer |
| VpsSessions.Session.OnRead | remoteVps/session.cpp:108-126 | the read handler computes the read step and keeps the invariant |
| VpsSessions.Session.OnWrite | remoteVps/session.cpp:88-102 | the write handler (clear, close, pop) computes the write step and keeps the invariant |
| VpsSessions.Session.OnConnect | remoteVps/session.cpp:190-206 | the connect handler computes the connect step; the invariant survives iff this is the first success |
| VpsSessions.Session.InputToKcp | remoteVps/session.cpp:139-152 | the datagram handler computes the input step and keeps the invariant |
| VpsSessions.Session.TryToReadFromKcp | remoteVps/session.cpp:154-188 | the receive loop drains KCP and equals handling the messages one by one |
| SizeClasses.ClassFits | memoryPool/memoryPool.cpp:54 | the table's class holds the request iff it is at most 2048 bytes, and is the least class strictly larger, or the largest |
| SizeClasses.BlocksHaveRoom | memoryPool/memoryPool.cpp:8-14 | for every n >= 1 and class: at least one node to hand out, and the spare node too fits the block |
| SizeClasses.NodeCountLargest | memoryPool/memoryPool.cpp:8-14 | the count is the largest that leaves one spare node: with one node more the 48 bytes of header and the nodes would not fit the n MiB; node sizes 272, 528, 1040, 2064 |
| SizeClasses.Layout | memoryPool/memoryPool.h:27-55 | the first node is 48 bytes into the block, nodes follow each other without gaps, data is 16 bytes into its node |
| SizeClasses.CountsFitInt | memoryPool/memoryPool.cpp:10-11 | the counts fit a 32-bit int iff n <= 557056 |
| SizeClasses.DataAligned | memoryPool/memoryPool.h:46-55 | data areas are 16-byte aligned |
| SlabSpec.FreePlusLive | memoryPool/memoryPool.h:27-36 | free plus live nodes of a block are its N nodes; the counter is between 0 and N |
| SlabSpec.CountTells | memoryPool/memoryPool.cpp:36 | the counter is N iff no node is live, 0 iff all are |
| SlabSpec.FirstFitExact | memoryPool/memoryPool.cpp:55-71 | the block found is the first with a nonzero counter |
| SlabSpec.MallocExact | memoryPool/memoryPool.cpp:51-72 | the node handed out was not live and is the only one that becomes live; a block is appended iff every block is full, and only one |
| SlabSpec.FreeExact | memoryPool/memoryPool.cpp:74-81 | the node given back is the only one that stops being live |
| SlabSpec.MallocThenFree | memoryPool/memoryPool.cpp:51-81 | freeing what was just handed out restores every free list; an appended block stays |
| SlabSpec.FreeThenMalloc | memoryPool/memoryPool.cpp:59-81 | last in, first out: a node freed in a block behind none but full ones is handed out next |
| SlabSpec.FreshInOrder | memoryPool/memoryPool.h:27-36 | a new block hands out all its N nodes, in the order of their addresses |
| SlabSpec.TrimExact | memoryPool/memoryPool.cpp:31-49 | no live node is lost, blocks are at most one more than live nodes, and trimming again changes nothing |
| SlabSpec.SurvivorsExact | memoryPool/memoryPool.cpp:35-47 | the survivors are exactly the later blocks whose counter is not N, in their order |
| PoolSpec.RunKeepsInv | memoryPool/memoryPool.cpp:22-81 | over every run of malloc, free and trim: free lists well formed, blocks disjoint and aligned, and k >= 2 blocks of N nodes only if (k-1)*N+1 nodes were once live together |
| PoolSpec.InitInv | memoryPool/memoryPool.cpp:5-20 | the constructed pool satisfies that invariant |
| PoolSpec.StepKeepsInv | memoryPool/memoryPool.cpp:31-81 | one operation keeps it |
| PoolData.MallocGives | memoryPool/memoryPool.cpp:51-72 | over the whole pool, for every request of at most 2048 bytes: the data of a node of the least class larger than the request, or the largest, in its first block with one to hand out; the node was not live and is all that becomes live; blocks stay where they are, and one is appended iff all are full |
| PoolData.FreeGives | memoryPool/memoryPool.cpp:74-81 | over the whole pool: exactly the node freed stops being live, and no block comes or goes |
| PoolData.TrimGives | memoryPool/memoryPool.cpp:31-49 | over the whole pool: no node stops being live, each class keeps its first block and of the others only those with a live node, at most one block more than live nodes |
| PoolSpec.LiveAreasDisjoint | memoryPool/memoryPool.h:46-53 | a live area is aligned, lies in its block and shares no byte with any block header, any node head, or any other node (live, free or spare) of any block of any class |
| PoolSpec.NodesDisjoint | memoryPool/memoryPool.h:27-36 | no byte of the pool is in two nodes, or in a node and a block header |
| PoolSpec.MallocSpares | memoryPool/memoryPool.cpp:51-72 | the node a malloc returns, and the block it may add, share no byte with any live node |
| PoolSpec.SpaceWasNeeded | memoryPool/memoryPool.cpp:22-72 | over every run, a class that has k >= 2 blocks of N nodes had at least (k-1)*N+1 nodes live together after some part of the run |
| PoolSpec.SpaceGrows | memoryPool/memoryPool.cpp:57-60 | a block is added only when all the others are full, which pays for it |
| PoolData.ReadsBack | memoryPool/memoryPool.cpp:31-81 | over every interleaving of mallocs, frees, trims and client writes, every word of a node that stays allocated is what clients last wrote, as if the pool did nothing; its first word never changes |
| PoolData.LiveNodeSpared | memoryPool/memoryPool.cpp:31-81 | no operation changes a word of a live node it does not free |
| PoolData.StaysLive | memoryPool/memoryPool.cpp:31-81 | a live node stays live until it is freed |
| PoolMemory.FirstWordTells | memoryPool/memoryPool.h:10-12 | a node's first word is its block iff live, a link (to the next free node) iff free and not the spare node, null iff it is the spare node |
| PoolMemory.Carve | memoryPool/memoryPool.h:27-36 | the carving loop links nodes 0..N in order and writes nowhere else |
| PoolMemory.TakeWords | memoryPool/memoryPool.cpp:63-66 | turning the head's link into an owner word leaves the rest of the list linked |
| PoolMemory.GiveWords | memoryPool/memoryPool.cpp:78-80 | turning an owner word into a link puts the node in front of the list |
| SlabClasses.SlabClass.FindBlock | memoryPool/memoryPool.cpp:55-71 | the search loop terminates and finds the first-fit block, growing the chain by at most one |
| SlabClasses.SlabClass.GetNewMemoryBlock | memoryPool/memoryPool.cpp:22-29 | a carved block is appended; memory changes only inside it |
| SlabClasses.SlabClass.TakeNode | memoryPool/memoryPool.cpp:59-64 | the head of the free list is popped and marked with its block |
| SlabClasses.SlabClass.Malloc | memoryPool/memoryPool.cpp:51-72 | the class changes as the specification says; memory changes in one word, or also in the new block |
| SlabClasses.SlabClass.FreeNode | memoryPool/memoryPool.cpp:74-81 | the node goes back to the front of its block's list; one word changes |
| SlabClasses.SlabClass.Release | memoryPool/memoryPool.cpp:36-41 | one block is spliced out and its memory given back |
| SlabClasses.SlabClass.Trim | memoryPool/memoryPool.cpp:31-49 | the splicing loop leaves exactly the first block and the blocks with a live node, in order |
| MemoryPools.MemoryPool.constructor | memoryPool/memoryPool.cpp:5-20 | a valid pool of four classes of one block each |
| MemoryPools.MemoryPool.MallocMemory | memoryPool/memoryPool.cpp:51-72 | keeps the whole pool valid, takes the specified step, returns the specified address, and changes no word but the first of that node and, only when a block is appended, that block |
| MemoryPools.MemoryPool.FreeMemory | memoryPool/memoryPool.cpp:74-81 | finds the block through the owner word; keeps the pool valid; changes one word |
| MemoryPools.MemoryPool.FreeOldMemoryBlock | memoryPool/memoryPool.cpp:31-49 | trims all four classes; only memory of blocks without live nodes goes |
| MemoryPools.MemoryPool.Store | memoryPool/memoryPool.h:46-53 | a client's write anywhere in a live area leaves the pool valid |
| PoolData.LiveDataStays | memoryPool/memoryPool.cpp:35-41 | trimming takes no byte of a live node |
| WheelSpec.TickExact | timeWheel/timeWheel.hpp:89-107 | after a tick each slot is the reverse of the fired entries that landed in it, in front of what it held; the fired slot held nothing, even when it is landed in |
| WheelTime.DelayExact | timeWheel/timeWheel.hpp:69-77 | exactly which delays are honoured by a remount and by a mount between ticks; no wait exceeds a revolution |
| WheelTime.DelayInMillis | timeWheel/timeWheel.hpp:69-77 | in numbers: a remount by 3 to 3002 ms is ms / 3 ticks, a mount between ticks by 3 to 2999 ms likewise, less than 3 ms is one tick, and no wait exceeds 1000 ticks |
| WheelTime.DueSlot | timeWheel/timeWheel.hpp:69-77 | the slot chosen is the due tick modulo 1000 |
| WheelTime.NoOverflow | timeWheel/timeWheel.hpp:70-74 | the cursor sum fits a 32-bit int for every uint32 argument |
| WheelTime.TickFiresDue | timeWheel/timeWheel.hpp:90-103 | a tick fires exactly the entries due at it, each once |
| WheelTime.StepKeepsInv | timeWheel/timeWheel.hpp:48-107 | mount, remove and tick keep: each entry once, in the slot of its due tick, due within a revolution |
| WheelTime.FiresAtDue | timeWheel/timeWheel.hpp:89-107 | over every run, an entry not removed first fires at exactly its due tick |
| WheelTime.RemovedNeverFires | timeWheel/timeWheel.hpp:48-60 | over every run, an entry that was removed does not fire until it is mounted again |
| WheelTime.RemountPeriod | timeWheel/timeWheel.hpp:92-107 | a remounted entry fires again exactly its answer's ticks later iff they are at most 1000 |
| WheelTime.FirstMountWithinRevolution | server/session.cpp:30-35 | the first mount fires within 1000 ticks whatever clock value is passed as its delay |
| TimeWheels.LinkFront | timeWheel/timeWheel.hpp:75-87 | linking in front keeps a well-formed list; a header's ahead is not written |
| TimeWheels.Unlink | timeWheel/timeWheel.hpp:48-60 | unlinking at any position, first and last included, keeps a well-formed list |
| TimeWheels.TimeWheel.MountTask | timeWheel/timeWheel.hpp:69-88 | the 1000 lists stay well formed and disjoint, and change by one prepend |
| TimeWheels.TimeWheel.RemoveTask | timeWheel/timeWheel.hpp:48-60 | they change by one deletion; the node comes back with null links |
| TimeWheels.TimeWheel.FireOne | timeWheel/timeWheel.hpp:95-103 | one callback and its remount leave the rest of the detached chain intact |
| TimeWheels.TimeWheel.DoCurrentTimeWheel | timeWheel/timeWheel.hpp:89-107 | a tick computes the specified wheel and calls back the slot's entries once each, in list order |
| SessionTimers.DriveExact | server/session.cpp:87-96 | across any 32-bit clock wrap the driver returns max(1, d) for every true delay d in [-2^31, 2^31) |
| SessionTimers.DueAgain | server/session.cpp:87-96 | a session driven when KCP wants its next update d ms after its clock, across any wrap, is due again max(1, d) ms later |
| SessionTimers.DrivenOnTime | server/session.cpp:87-96 | over every run, it is driven again exactly max(1, d / 3) ticks later unless closed first, for every d up to a revolution |
| SessionTimers.DrivenAtDue | server/session.cpp:71-96 | over every run of starts, ticks and closes, a session that is not closed first is driven at exactly its due tick |
| SessionTimers.DueFirst | server/session.cpp:30-35 | a start mounts the session by the number passed to it |
| SessionTimers.TickKeepsMembers | timeWheel/timeWheel.hpp:97-103 | a tick drops no entry iff no callback answers 0 |
| SessionTimers.MembershipAlways | server/session.cpp:71-80 | over every run of starts, ticks and closes a session is in the wheel exactly once iff started and not closed |
| SessionTimers.OnWheelExactly | server/session.cpp:30-80 | over every run from the start: a session is on the wheel once iff the run started it and did not close it, else not at all |
| TimerHosts.TimerHost.OnWheelIffOpen | remoteVps/session.cpp:33-49 | the nodes linked into the wheel are the sessions started and not closed |
| TimerHosts.TimerHost.Start | remoteVps/session.cpp:33-38 | start mounts the session on the real lists |
| TimerHosts.TimerHost.OnTimer | remoteVps/worker.cpp:35-43 | the timer drives exactly the sessions due, and remounts each on the real lists max(1, d) ms later, d being the time from its clock to its KCP check |
| TimerHosts.TimerHost.Close | remoteVps/session.cpp:40-49 | close unmounts once; removeTask is only ever given a linked node |
| Packet.OpenSeal | server/AES.cpp:86-98 | sealing adds 68 bytes, is accepted, and opens to the same plaintext |
| Packet.SealLayout | server/AES.cpp:86-98 | where a sealed packet holds what: key 0, IV 32, ciphertext 44, then 16 bytes of tag and 8 zeros |
| Packet.AcceptedExact | server/AES.cpp:53-83 | a packet is accepted iff it has 68 bytes and the 16 in front of its padding are the tag of its key, IV and ciphertext |
| Packet.TagsAgree | server/AES.cpp:74-79 | of packets that agree up to the tag, exactly those with the tag of an accepted one are accepted |
| Packet.TamperedRejected | server/AES.cpp:74-79 | a sealed packet with any byte of its tag changed is rejected |
| Packet.DoEncrypt | server/AES.cpp:100-121 | in place: the packet replaces plaintext and margins; bytes behind it are untouched; empty input fails |
| Packet.DoDecrypt | server/AES.cpp:125-141 | in place: the plaintext replaces the ciphertext whatever the tag; success iff there are 68 bytes and bytes n-24 to n-8 are the tag of bytes 0-32, 32-44 and 44 to n-24; n-68 or 0xFFFFFFFF is returned |
| Packet.KcpCallBack | server/session.cpp:205-221 | id and segment are framed and sealed in length+84 bytes, within the length+128 asked for; bytes behind are untouched |
| Packet.FrameLayout | server/session.cpp:213-219 | a framed segment opens to the 16 bytes of the id, then the segment |
| Demux.FramesFit | server/session.cpp:205-221 | a framed segment of at most 1250 bytes is 84 bytes longer, within the 128 asked of the pool, what its class provides, and the 2048-byte receive buffer |
| Demux.FrameArrives | server/worker.cpp:136-142 | a framed segment is read back with the id and bytes it was framed with |
| Demux.DatagramExact | server/worker.cpp:136-142 | which session a datagram names and what it gives it: for accepted, short and rejected ones |
| Demux.VpsRoutes | remoteVps/worker.cpp:57-88 | over every run: a session for exactly the ids received, one each; each gets exactly the inputs carrying its id, in order, up to its close |
| Demux.WifiRoutes | server/worker.cpp:102-145 | the same for registered ids only, from registration on |
| Demux.ReceivesUntilError | server/worker.cpp:129-145 | over every run one receive is outstanding: always on the VPS side, and on the wifi side iff no receive has failed; with none outstanding nothing is delivered |
| Demux.WifiStopsReceiving | server/worker.cpp:132-135 | concrete run: one receive error, and no receive is outstanding |
| Datagrams.SessionsFromNames | remoteVps/worker.cpp:70-87 | over every run of received bytes: a VPS session exists for exactly the ids named by some datagram, authentic or not |
| Datagrams.SegmentsAuthentic | server/worker.cpp:136-142 | over every run, on either side: every segment a session is given came in an authentic datagram for its id |
| Datagrams.SegmentsReachTheirSession | remoteVps/worker.cpp:70-87 | when framed segments arrive, each session is given exactly those framed for it, in order |
| Datagrams.RejectedGetsSession | remoteVps/worker.cpp:71-87 | concrete input: a datagram that is not authentic gets a session, whose KCP is given a size of -17 |
| Workers.Worker.Unpack | remoteVps/worker.cpp:70-75 | what is read from the buffer after decrypting in place |
| Workers.Worker.Listen | remoteVps/worker.cpp:57-88 | the VPS handler computes the routing step and receives again, also after an error or an empty datagram |
| Workers.Worker.ReceiveUdpMessageFromRemoteServer | server/worker.cpp:129-145 | the wifi handler computes the routing step and receives again, except after an error |
| Workers.Worker.RegisterSession | server/worker.cpp:102-110 | a fresh id gets a session; a taken id keeps the session it has |
| UdpSpec.RunKeepsInv | server/worker.cpp:73-99 | over every run: at most 2049 queued; sent then queued is what was accepted; a send in flight iff something is queued and no send has failed while another packet was waiting; after such a failure nothing is sent |
| UdpSpec.OneAtATime | server/worker.cpp:85-98 | over every run: after n completed sends exactly the first n accepted packets are done and the others queued, in order; what was accepted or done stays so |
| UdpSpec.NoFailure | server/worker.cpp:90-97 | a run without send errors never stalls |
| UdpSpec.NextKeepsInv | remoteVps/worker.cpp:90-119 | one step keeps that; an offer is accepted iff at most 2048 are queued; it stalls exactly when a send fails with at least two queued |
| UdpSpec.StalledRun | server/worker.cpp:85-98 | concrete run: two packets offered, the first send fails, and the queue has stalled |
| UdpSpec.AcceptedInOrder | server/worker.cpp:73-83 | the packets accepted are a subsequence of those offered |
| UdpSenders.UdpSender.TryToSendUdpMessage | remoteVps/worker.cpp:90-101 | the offer handler computes the offer step |
| UdpSenders.UdpSender.OnSent | remoteVps/worker.cpp:103-119 | the completion handler computes the completion step |

## Left out

- Sockets, asio, threads, logging, `SO_MARK`, `SO_ORIGINAL_DST` and start-up: completions arrive as events in any order the outstanding operations allow.
- KCP itself: a reliable FIFO of whole messages; `ikcp_send` adds 1..F segments (F < 128) and only `ikcp_input` lowers the backlog.
- AES-256-GCM: a length-preserving cipher with a 16-byte tag that undoes itself; failures of OpenSSL calls and of the random number generator.
- `aligned_alloc` failing; in the allocator's own operations, requests over 2048 bytes, which the size table does not serve (`SizeClasses.ClassFits`).
- What the source does after a message its receive loop cannot take: it depends on memory outside the message or outside its area. The runs of `VpsSpec` end there.
- Shifts of 32 bits or more in the size table: the model reads them as 0, C++ leaves them undefined (requests of 4096 bytes and more).
- The accept loops and the choice of the least loaded worker in both `server.cpp` files.
- Functions without behaviour: `removeSession`, `removeSessionFromHashMap`, `doCloseSession`, `currentTaskSize_`.
- Destruction of pools, workers and sessions: no session is ever taken out of a session map.
- A callback that mounts or removes on the wheel it is called from; the one installed does not.
- Data words of nodes before a client writes them: the model's memory holds only words that were written.
- Closing a session also takes it off the wheel; that half of `closeSession` is TimerHosts.TimerHost.Close.
- Workers.Worker.RegisterSession: a session whose random id is taken is not entered in the map; what becomes of that session object, which the source starts all the same, is not modelled.
- Workers.Worker.Listen: a session is a record of its inputs here; what the session does with them is VpsSessions.Session.InputToKcp.
