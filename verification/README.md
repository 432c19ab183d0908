# The video path, verified

The video server receives UDP datagrams, frames them into a circular buffer that two threads
share without a lock, and a second thread drains that buffer byte by byte into a hardware FIFO.
On the other board a client reads the bytes back, cuts them into datagrams again and sends them
on. This project models that path and its INIT / INIT_ACK handshake in Dafny and proves what
they promise. Verify it with `dafny verify dfyconfig.toml`.

- `Basics.dfy`: bytes, the constants of the headers, 32-bit and 16-bit conversions.
- `Ring.dfy`, `CircularBuffer.dfy`: the circular buffer as a value with its queue, and the class
  that updates it in place as `buffer.c` does.
- `Framing.dfy`: the byte stream and the client's parser, one byte at a time.
- `HardwareFifo.dfy`: the FIFO registers of `fifo.c`.
- `Server.dfy`, `Client.dfy`: admission, `recv_video`, `wait_init`, `run_server`, one drain burst;
  the handshake loop, `video_send_loop`, `empty_fifo`.
- `Pipeline.dfy`: both server threads, the link and the client as a state machine. Each access to
  a word two threads share is a step of its own.
- `Invariant.dfy`: the invariant of the machine, a half about the ring and a half about the byte
  stream, and the proof that every step keeps it.
- `Delivery.dfy`: what follows for every run: end-to-end safety, and delivery under fair scheduling.
- `Publication.dfy`: the window between writing `head` and writing `full`, and the proof that an
  uninterrupted thread of the machine does what the methods do.
- `SpuriousDrop.dfy`: a run in which a datagram is dropped although the ring is nearly empty.
- `Handshake.dfy`: the handshake over a lossy, duplicating, reordering network, tied run by run to the
  loops of server and client.

## What was found

`send_data_buffer` writes `head` (line 22) and then recomputes `full` (line 23). If the drain
thread empties the ring in between, line 23 marks an empty ring full, and the drain thread goes on
to take a byte that nobody published. `RaceIsReachable` gives such a run for every ring of at least
four bytes; `DrainIsSafeExactlyWhen` shows that this is the one unsafe moment to take a byte; all
other results hold for every run without it (`Clean`), in particular for every run in which the two
lines are not separated (`AtomicPublicationIsClean`).

`get_space` reads `tail` twice (lines 40 and 41). If the drain thread moves `tail` past the end of
the array in between, the difference is 0 or negative, and the datagram is dropped however empty
the ring is. `AdmitsExactlyWhen` gives the exact condition of admission in every state that a run without the
race reaches; `SpuriousDropIsReachable` gives a run, for every ring of at least six bytes, that
drops a datagram of one byte while two bytes wait. No queued byte is damaged by it.

Two smaller corners are stated the same way: a write of no bytes to an empty ring
(`WriteAppendsExactlyWhen`) and uninitialised receive buffers that happen to hold a matching byte
(`OpensExactlyWhen`, `SafeExactlyWhenClean`).

## Assumptions

Memory is sequentially consistent; `memcpy` is one step. `size_t` and `int` have 32 bits. The ring
has fewer than 2^31 bytes (the server's has 20000000). The client starts on a frame boundary and
both boards have the same byte order, whichever it is. The link between the FIFOs loses nothing.

## Model

| member | source | states |
|---|---|---|
| Ring.WriteAppendsExactlyWhen | VideoServer/src/buffer.c:10-25 | a write appends exactly its data to the unread bytes if and only if it fits and is not an empty write to an empty ring |
| Ring.WriteGoesRound | VideoServer/src/buffer.c:10-25 | every write, overfilling or not, puts byte `i` into the cell `i` places after `head`, going round, later bytes over earlier ones; no other cell changes and the flag is up exactly when `head` meets `tail` |
| Ring.TakeRemovesExactlyWhen | VideoServer/src/buffer.c:28-32 | a read returns and removes the oldest unread byte if and only if there is one; otherwise `max - 1` stale bytes appear |
| Ring.SpaceIsFree | VideoServer/src/buffer.c:35-53 | in 32-bit arithmetic `get_space` is the free space, `fill_level` the number of unread bytes, and the emptiness test exact; on a ring that is not full no intermediate sum or difference wraps around |
| Ring.OnlyTheLastPartFills | VideoServer/src/buffer.c:15-17 | between the two halves of a split write that fits the flag is down; after it, it is up exactly when the ring is full |
| Ring.FifoExactlyWhenLawful | VideoServer/src/buffer.c:10-32 | a history of calls agrees at every moment with a first-in first-out queue if and only if no call overfills the ring, reads an empty one or writes nothing to an empty one |
| CircularBuffers.CircularBuffer.constructor | VideoServer/src/buffer.c:69-78 | a new buffer is empty whatever the allocation contains, and usable exactly when it has at least one and fewer than 2^31 bytes |
| CircularBuffers.CircularBuffer.SendData | VideoServer/src/buffer.c:10-25 | the recursive split terminates and leaves array, `head` and `full` as writing the bytes one at a time modulo `max`, for every length, even beyond `max`; the sum of index and length stays below 2^32 |
| CircularBuffers.CircularBuffer.ReadData | VideoServer/src/buffer.c:28-32 | returns the byte under `tail`, moves `tail` and clears the flag; on a non-empty ring that is the oldest byte |
| CircularBuffers.CircularBuffer.GetSpace | VideoServer/src/buffer.c:35-47 | returns `max` minus the number of unread bytes |
| CircularBuffers.CircularBuffer.FillLevel | VideoServer/src/buffer.c:51-53 | returns the number of unread bytes |
| CircularBuffers.CircularBuffer.IsEmpty | VideoServer/src/buffer.c:63-65 | true exactly when nothing is unread |
| Framing.Header | VideoServer/src/server.c:111-112 | the two bytes weigh 1 and 256 on a little-endian machine, 256 and 1 on a big-endian one, and together make the length |
| Framing.Length | VideoServer/src/client.c:63-65 | the number read has the first byte as its low byte on a little-endian machine, as its high byte on a big-endian one |
| Framing.EveryByteAccountedFor | VideoServer/src/client.c:59-77 | on arbitrary bytes the parser's index stays inside its buffer, packets have at most 2000 bytes, and bytes read are headers, refused headers and payloads |
| Framing.FeedInPieces | VideoServer/src/client.c:59-77 | however the byte stream is cut into arrivals, the client does the same |
| Framing.EveryCutParses | VideoServer/src/client.c:59-77 | after any number of bytes of a well-formed stream the client has sent exactly the complete datagrams and stands at the place the cut determines |
| Framing.OversizeIsSkipped | VideoServer/src/client.c:65-68 | a length above 2000 costs exactly its own two bytes: what comes before it is sent and any bytes after it are read as if it were not there |
| Framing.RoundTripExactlyWhenSmall | VideoServer/src/server.c:111-114 | parsing the framed datagrams gives them back, in either byte order, if and only if none exceeds 2000 bytes |
| Framing.StreamIsInjective | VideoServer/src/server.c:111-114 | different lists of datagrams never give the same bytes |
| HardwareFifos.HardwareFifo.SendData | VideoServer/src/fifo.c:90-96 | appends and returns 0 if fewer than 2048 bytes are in it, else returns 1 and changes nothing |
| HardwareFifos.HardwareFifo.ReadData | VideoServer/src/fifo.c:105-111 | removes the oldest byte and returns 0, or returns 1 and changes nothing |
| HardwareFifos.HardwareFifo.WriteBlocking | VideoServer/src/fifo.c:98-103 | gets through exactly when fewer than 2048 bytes are or come to be in it, and then the byte stands behind all that the first removal left |
| HardwareFifos.HardwareFifo.ReadBlocking | VideoServer/src/fifo.c:113-118 | gets through exactly when a byte is or comes to be there, and takes the oldest |
| Servers.AdmissionIsAllOrNothing | VideoServer/src/server.c:108-116 | uninterrupted, a datagram is queued as one whole frame exactly when queued bytes + length + 2 < `max`, else the ring is unchanged and at least `max - 2002` bytes wait |
| Servers.SendPacketBuffer | VideoServer/src/server.c:108-116 | the in-place method, uninterrupted, does exactly that |
| Servers.NonEmptyExactly | VideoServer/src/server.c:94-96 | the receive loop takes up exactly the datagrams that are not empty, in order |
| Servers.FindRoomExactly | VideoServer/src/server.c:92-98 | undrained, a datagram is queued exactly when it is not empty and the bytes queued before it, its length and 2 stay below `max` |
| Servers.AllFindRoom | VideoServer/src/server.c:92-98 | if the frames of all non-empty datagrams fit together, all of them are queued |
| Servers.RecvVideo | VideoServer/src/server.c:85-106 | undrained, the ring gains the frames of the datagrams that find room, in order, and of all non-empty ones if they fit together; no arrivals, no change; one print per 250 non-empty datagrams |
| Servers.WaitInit | VideoServer/src/server.c:71-83 | the wait ends on the first datagram that leaves INIT in `data[0]`; its sender and nobody else gets one INIT_ACK |
| Servers.OpensExactlyWhen | VideoServer/src/server.c:71-83 | that is the first datagram starting with INIT, unless `data[0]` was INIT by accident and the first datagram is empty |
| Servers.AfterInitExactly | VideoServer/src/server.c:56-66 | what the receiving state gets is precisely what follows the datagram that ended the wait |
| Servers.RunServer | VideoServer/src/server.c:53-68 | through both states, undrained, the server's ring of 20000000 bytes holds the frames of the datagrams after the first INIT that found room; the one reply is an INIT_ACK to the sender of the datagram that ended the wait, and none if none did |
| Servers.DrainBurst | VideoServer/src/server.c:120-137 | a burst moves bytes to the FIFO in order, losing none, until the ring is empty or the FIFO holds 2048 bytes with one more in hand |
| Replies.EndsExactlyWhen | VideoServer/src/client.c:36-45 | the handshake loop ends on the first INIT_ACK from the server, whatever timeouts leave behind, unless the uninitialised variables match and the first receive times out |
| Replies.HeardIsLast | VideoServer/src/client.c:36-45 | the loop's variables hold the source of the last datagram and the first byte of the last one not empty, whatever timeouts come between |
| Clients.AwaitAck | VideoServer/src/client.c:36-45 | the loop sends one INIT per round and stops at the first round whose variables show an INIT_ACK from the server |
| Clients.VideoSendLoop | VideoServer/src/client.c:52-78 | the loop over its array sends exactly the packets of the byte-wise parser and blocks in the same place; the narrowing to `short` is exact |
| Clients.EmptyFifo | VideoServer/src/client.c:165-176 | whatever part of a finite link is delivered meanwhile, it ends with the FIFO empty and has counted exactly the bytes that were in it and those delivered |
| Pipeline.OneWordAtATime | VideoServer/src/buffer.c:21-31 | only the receive thread writes cells and `head`, only the drain thread `tail`; no step of the machine writes two of cells, `head`, `tail` and `full` or moves two bytes of a FIFO |
| Invariant.StepKeeps | VideoServer/src/server.c:108-137 | every step of either thread, the link or the client, the race aside, keeps the invariant |
| Invariant.RunKeeps | VideoServer/src/server.c:85-137 | so does every run |
| Invariant.SampledSpace | VideoServer/src/buffer.c:40-44 | whatever is drained between its two reads of `tail`, `get_space` gives the free space at the second one, unless `tail` has passed the array end; then at most 0 |
| Delivery.EndToEndSafety | VideoServer/src/server.c:85-137 | in every state reached by an interleaving that avoids the race, the bytes published are those consumed, then the FIFOs, the held byte and the ring; the packets sent are the first admitted datagrams, whole and in order; admitted ones are received ones in order |
| Delivery.ResourceDiscipline | VideoServer/src/server.c:109-110 | in every state reached by an interleaving that avoids the race, also between segment commits, a byte of the ring is free and the flag down; an admitted frame has room to its last byte although its space sample is stale; no unpublished cell is read, no FIFO is written when full or read when empty |
| Delivery.AdmitsExactlyWhen | VideoServer/src/server.c:109-110 | in every such state, with the drain thread running, a datagram is admitted if and only if its frame fits and `tail` has not passed the array end between the two reads of `get_space`; so a drop means that it has or that at least `max - 2002` bytes wait |
| Delivery.FindsEmptyExactlyWhen | VideoServer/src/buffer.c:63-65 | in every such state the drain thread finds the ring empty if and only if it is |
| Delivery.WritesAreSound | VideoServer/src/buffer.c:16-23 | in every such state a copy touches no unread byte, also at the array end; a store to `head` publishes the next bytes of the call, in order, up to their end or the array's, and all at once if they end first |
| Delivery.OnlyAfterInit | VideoServer/src/server.c:53-106 | admitted datagrams are a subsequence of the non-empty ones after the first INIT; while the server waits nothing is on the way |
| Delivery.ReceivedFrom | VideoServer/src/server.c:56-97 | the datagrams of a run the receive loop takes up, for any interleaving: the non-empty ones, and those after the first INIT if the server waits for it |
| Delivery.NothingIsTakenBack | VideoServer/src/client.c:59-77 | along any run the datagrams received, admitted and sent on only grow at the end |
| Delivery.ProductiveLowers | VideoServer/src/server.c:125-136 | every turn that does more than poll lowers a weighted count of the bytes on the way |
| Delivery.PollingIsHarmless | VideoServer/src/fifo.c:98-118 | a turn that polls in vain leaves the count and makes no other turn useless |
| Delivery.SomeTurnIsProductive | VideoServer/src/fifo.c:98-118 | while anything is on the way some turn does more than poll and is not the race: no deadlock |
| Delivery.QuiescentMeansDelivered | VideoServer/src/client.c:59-77 | when nothing is on the way the client has sent exactly the admitted datagrams and stands before a frame |
| Delivery.FairSchedulesDeliver | VideoServer/src/server.c:125-136 | without new datagrams, under any schedule that avoids the race and keeps giving every component turns, everything admitted is sent on within a bounded number of rounds |
| Delivery.MeasureIsBounded | VideoServer/src/server.c:125-136 | the number of rounds that takes is at most 24 (`max` + 2002) + 7 * 2048 + 28 |
| Delivery.TakingTurnsDelivers | VideoServer/src/server.c:125-136 | such schedules exist at every length: when the components take turns the race does not occur and everything admitted is sent on |
| Delivery.DeliveryIsAlwaysPossible | VideoServer/src/server.c:125-136 | from every state of the invariant some clean run delivers everything |
| Publication.DrainIsSafeExactlyWhen | VideoServer/src/buffer.c:22-31 | taking a byte is safe for every continuation if and only if it is not the last unread byte taken between lines 22 and 23; that moment and no other is the race |
| Publication.RaceBreaksIntegrity | VideoServer/src/buffer.c:22-31 | after the race some run takes a byte that was never published |
| Publication.RaceIsReachable | VideoServer/src/buffer.c:22-31 | a concrete run from a fresh server leads to the race, for every ring of at least four and fewer than 2^31 bytes |
| Publication.AtomicPublicationIsClean | VideoServer/src/buffer.c:22-23 | if the drain thread never runs between the two lines the race never occurs |
| SpuriousDrop.SpuriousDropIsReachable | VideoServer/src/buffer.c:40-44 | a concrete run without the race leads from a fresh server to a state that drops a datagram of one byte while two bytes wait, for every ring of at least six and fewer than 2^31 bytes |
| Publication.SegmentAlone | VideoServer/src/buffer.c:16-24 | uninterrupted, copy, `head` and flag are the byte-at-a-time write of the segment |
| Publication.OneCommitOrTwo | VideoServer/src/buffer.c:11-24 | uninterrupted, a call whose data end before the array does takes one copy and one store to `head`; one that runs past it, of at most `max` bytes, takes two of each, the first up to the array end |
| Publication.CallAlone | VideoServer/src/buffer.c:10-25 | uninterrupted, all the segments of one `send_data_buffer` call together are the reference write of its data |
| Publication.AdmittingAlone | VideoServer/src/server.c:108-116 | uninterrupted, the receive thread of the machine leaves the whole state as `send_packet_buffer` does |
| Publication.DrainingAlone | VideoServer/src/server.c:125-136 | uninterrupted, one turn of the drain loop is `read_data_buffer` and a FIFO write, or only a look at an empty ring |
| Handshake.PastMeansServed | VideoServer/src/client.c:36-45 | a client past its loop, whose variables did not match by accident, was answered: the server left its wait on this client's own INIT and receives video from then on, for ever |
| Handshake.OnlyOnePasses | VideoServer/src/server.c:71-83 | of the clients whose variables do not match by accident at most one ever gets past its loop |
| Handshake.SafeExactlyWhenClean | VideoServer/src/client.c:31-45 | this protection holds in all runs if and only if the client's uninitialised variables do not already match |
| Handshake.OneTimeoutSuffices | VideoServer/src/client.c:31-45 | if they match, one timeout takes the client past its loop with no server involved |
| Handshake.ServerFollowsWaitInit | VideoServer/src/server.c:71-83 | after every run the server receives video if and only if one of the datagrams it received ended the wait of `wait_init`, and then that one's sender has been sent an INIT_ACK |
| Handshake.ClientFollowsItsLoop | VideoServer/src/client.c:36-45 | after every run a client is past its loop exactly when the last outcome of its receives ended the loop and none before; it has sent one INIT per round |
| Handshake.NetHoldsWhatWasSent | VideoServer/src/server.c:76-79 | after every run the network holds exactly what clients and other hosts sent and the one INIT_ACK |
| Handshake.ThreeStepsSuffice | VideoServer/src/client.c:36-45 | while the server waits, INIT, its receipt and the receipt of the answer take any client past its loop |
| Handshake.CanPassExactlyWhen | VideoServer/src/client.c:36-45 | from every state a run reaches, a client whose variables do not match by accident can get past its loop if and only if the server still waits or this client's own INIT ended the wait |

## Left out

- Connection set-up, `poll`, `recvfrom` and `sendto` are "a datagram of at most 2000 bytes arrives", "time out" and "send"; errors that end the process are not modelled.
- `fifo.c` memory mapping and the generated hardware headers, apart from the depth and the meaning of the full and empty bits. `hps_soc_system.h` turns backpressure of the receive FIFO off; that the link loses nothing is an assumption.
- `androidServer/`, `video.c`, the debug menu, printing, the percentage of `print_buffer_fill_level`, and freeing and closing.
- `usleep`, thread creation and join, failing allocation, and memory models weaker than sequential consistency.
- Resynchronisation after losing frame alignment: the code promises none.
- That the handshake is bound to succeed: a lost INIT_ACK is never repeated, so it is not. Proved is exactly when it still can (`CanPassExactlyWhen`).
- The comment at server.c:129 speaks of a send status; `write_fifo_blocking` returns none, and the model follows the code.
- Servers.AdmissionIsAllOrNothing: like `Servers.SendPacketBuffer` it is about one uninterrupted call; what holds while the drain thread runs is `Delivery.AdmitsExactlyWhen`.
- Servers.RecvVideo: states the loop with nothing drained meanwhile, because the interleaved loop is the state machine of `Pipeline.dfy`; like `Servers.RunServer` it covers a finite list of arrivals of the endless loop.
- Servers.DrainBurst: covers one burst with no bytes arriving or leaving meanwhile, for the same reason.
- Clients.EmptyFifo: the link delivers finitely many bytes; with bytes arriving for ever the loop need not end.
- Invariant.StepKeeps: treats `memcpy` and each move of a byte over the link as one step; finer steps would touch only cells that are not unread.
