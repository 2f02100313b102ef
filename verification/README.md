# Stream verification

A Dafny model of the screen streaming programs: the packet transport between `streamsender` and `streamreceiver`, the
texture and fence publication that feeds and follows it, the render loop of `screendisplay`, the crop arithmetic of
`chromecapture`, and the lane partitioning in the CUDA cooperative-groups header.

Code that changes variables step by step is a class with those variables as fields (`StreamSender`, `StreamReceiver`,
`ScreenCapture`, `DecodeOutput`, `RenderLoop`, `ChromeCapture`, `NvEncoder`) or a method with the source's loop. Each method is tied
to a function on values (`Abs() == Step(old(Abs()), data)`), and the theorems are about those functions and about runs
of step systems built from them. Every lemma is marked `{:induction false}`: its body is the whole induction.

| file | contents |
|---|---|
| `Words`, `Wire` | machine words; the 32-byte header and its byte image |
| `Packetizer`, `Sender` | cutting encoded frames into datagrams; the encode loop |
| `Receiver`, `Reassembly`, `Ledger` | the receive loop; what an entry holds; what every receiver run keeps |
| `Transport` | sender, channel and receiver together: what every run keeps |
| `Progress`, `Window`, `Losses` | which frames are seen and finished along a run; exactly when nothing is lost; inputs at which something is |
| `Encoder` | the SDK's encoder, which returns each picture a fixed number of calls late |
| `Fence`, `Publication` | CPU and GPU steps of publication and consumption; the producing loops |
| `Display` | two command allocators under a frame fence |
| `Bits`, `Lanes`, `Tiles` | counting bits; ranks and packing; tiles by scanning and by shifting |
| `Crop` | the published part of a captured window |

## What the code needs from its surroundings

The transport theorems assume three things that streamsender and streamreceiver do not check. Each has lemmas that say
what depends on it.

* One chunk with bytes at most per encoded frame (all chunks of a frame share its id). The SDK's encoder keeps to it
  (`Encoder.EncodedFrameIs`); without it frames come out short (`Reassembly.WholeFrameIffOneChunk`) or mixed
  (`Losses.ChunksAreMixed`). A frame may have no bytes, as the encoder's first ones do.
* Chunks of at most 65535 * 1400 bytes (the packet count is cast to 16 bits): `Packetizer.PayloadsCoverChunkIff`.
* Frame id 2^32 - 1 is not reached (the stale test is a plain `<`): `Ledger.RemovedStaysRefusedIff`,
  `Ledger.LastIdReopens`.

That no packet announces a zero packet count or frame size is not assumed but proved of the sender
(`Packetizer.EmittedPacketIsReadBack`). Such a packet from elsewhere would leave an entry behind that skips the drain
loop and then reaches the decoder: `Ledger.DrainedAfterPacketIff`, `Ledger.BacklogKeptIff`,
`Ledger.EmptyEntryReachesDecoder`.

## Where the code does less than one might expect

Each place comes with the exact condition and with an input at which the code falls short.

* A frame overtaken by a later one before its first packet arrives is lost, even if everything arrives, whenever no
  older unfinished frame holds the watermark back: `Window.LosslessIffWindowKept`, `Losses.OvertakenFrameIsLost`.
* The receiver starts at the frame flagged in its header, but the encoder's output is late: the bytes of that frame are
  those of an earlier picture, for which an IDR was forced only if the keyframe period divides the delay:
  `Encoder.StartIsForcedPictureIff`, `Encoder.DefaultStartIsNotForced`.
* The shift-and-mask branch rounds the count of tiles down: `Tiles.FastCountIsRightIff`, `Tiles.RaggedBlock`.
* The crop is clipped by its place in the window although the copy goes to the texture's corner: `Crop.WidthIsKeptIff`,
  `Crop.FirstFrameKeepsSizeIff`, `Crop.FirstFrameCutsTheCrop`.

Where the comments of the source differ from its code the code is followed. `streamnet_protocol.h` says that an
incomplete frame is dropped; the receiver drops one only when more than 12 frames wait. It also bounds the number of
packets of a frame by the datagram size; the bound is the range of a 16-bit count.

## Model

| member | source | states |
|---|---|---|
| Wire.HeaderRoundTrip | streamnet_protocol.h:17-31 | reading a written header back gives every field unchanged, whatever follows it; with `DatagramLayout` this fixes the reader too |
| Wire.DatagramLayout | streamnet_protocol.h:17-31 | each field lies little-endian at its packed offset: magic at 0, frameId at 4, frameSize at 8, packetIdx at 12, totalPackets at 14, width at 16, height at 20, flags at 24, reserved at 28, payload from 32 on |
| Wire.HeaderImageIsExact | streamnet_protocol.h:17-31 | writing what was read gives the same 32 bytes back: no two headers share an image, so reading and writing are inverse both ways |
| Wire.ParseInvertsSerialize | streamreceiver/main.cpp:461-472 | a datagram passes the length and magic tests as packet p if and only if p carries the magic, has at most 1400 payload bytes and serializes to it |
| Wire.AcceptedIff | streamreceiver/main.cpp:461-472 | a datagram is accepted if and only if it has 32 to 1432 bytes and begins with 43 4D 54 53 (hexadecimal) |
| Packetizer.PacketCountIsCeiling | streamsender/main.cpp:349-351 | up to the largest chunk the 16-bit count is the rounded-up quotient, with no truncation |
| Packetizer.PacketsStartInside | streamsender/main.cpp:352-364 | for every chunk size, wrapped or not, each packet starts inside the announced size, so the subtraction never underflows |
| Packetizer.PayloadsAreConsecutive | streamsender/main.cpp:352-367 | the first n payloads concatenate to the first bytes of the chunk, without gap or overlap |
| Packetizer.PayloadsCoverChunkIff | streamsender/main.cpp:349-367 | the payloads concatenate to the chunk if and only if it has at most 65535 * 1400 bytes |
| Packetizer.PayloadOf | streamsender/main.cpp:363-367 | every payload is non-empty and at most 1400 bytes |
| Packetizer.ByteTravelsOnce | streamsender/main.cpp:352-367 | each byte of the chunk is in exactly one packet, at a known place of its payload |
| Packetizer.EmittedPacketIsReadBack | streamsender/main.cpp:353-370 | every emitted datagram is read back as the packet it was made from, with non-zero counts and a payload that ends inside the frame |
| Packetizer.EmittedBytes | streamsender/main.cpp:347-370 | the bytes of each emitted datagram by offset: magic, frame id, chunk size, index, packet count, content size, keyframe flag, zero, and the chunk's bytes from 1400 times the index on |
| Packetizer.OneChunkTravelsAsBody | streamsender/main.cpp:347-376 | with one non-empty chunk at most, the frame's datagrams are those of its whole body |
| Packetizer.SentAreAmongAll | streamsender/main.cpp:368-374 | whatever sends fail, only datagrams of the frame's chunks leave |
| Packetizer.SentIff | streamsender/main.cpp:347-376 | a datagram leaves if and only if its index is below the first failing send of its chunk: every chunk is tried, also after a failed one |
| Packetizer.SentAround | streamsender/main.cpp:347-376 | the datagrams of a chunk leave behind those of the chunks before it and ahead of those after it, whatever sends fail |
| Packetizer.SentHeaders | streamsender/main.cpp:353-370 | whatever leaves is accepted by the receiver's tests and carries the frame's id, content size and keyframe flag |
| Sender.PacketBounds | streamsender/main.cpp:349-367 | the loop body's offsets and lengths stay in bounds and make exactly the specified datagram |
| Sender.StreamSender.constructor | streamsender/main.cpp:280-282 | the loop's variables start at zero with nothing sent and nothing waited for |
| Sender.StreamSender.FillBuffer | streamsender/main.cpp:366-370 | the two copies into the reused buffer make the serialized packet, whatever the buffer held before |
| Sender.StreamSender.BuildPacket | streamsender/main.cpp:353-367 | packet i of a chunk is the i-th datagram of the specification |
| Sender.StreamSender.SendChunk | streamsender/main.cpp:348-375 | exactly the datagrams before the first failing send leave, in order; an empty chunk sends nothing |
| Sender.StreamSender.SendFrame | streamsender/main.cpp:347-376 | a failed send ends its chunk only; the next chunk is sent under the same frame id |
| Sender.StreamSender.TakeLatest | streamsender/main.cpp:287-330 | a new fence value, and only a new one, is waited for before the texture is read; either way the loop takes exactly a turn of the protocol's strict consumer |
| Sender.StreamSender.EncodeNext | streamsender/main.cpp:284-379 | a turn with no new fence value changes nothing; any other waits for that value, sends one frame and increments the id modulo 2^32; every datagram sent carries the old id, an odd flags field if and only if that id is a positive multiple of the period, and the published size where it is not zero; the waited values stay strictly increasing, and the turn is one of the protocol's strict consumer |
| Receiver.Overwrite | streamreceiver/main.cpp:498-499 | the copy changes the bytes of its range and no others |
| Receiver.LeastKey | streamreceiver/main.cpp:507-508 | every non-empty map has a front |
| Receiver.StreamReceiver.constructor | streamreceiver/main.cpp:411-415 | the receiver starts empty, at 0, not started |
| Receiver.StreamReceiver.Begin | streamreceiver/main.cpp:508-513 | the front of the sorted map is its least id |
| Receiver.StreamReceiver.DeliverHead | streamreceiver/main.cpp:514-517 | the front entry goes to the decoder and the watermark is its successor modulo 2^32 |
| Receiver.StreamReceiver.GiveUpHead | streamreceiver/main.cpp:518-521 | the front entry is dropped and the watermark is its successor modulo 2^32 |
| Receiver.StreamReceiver.DrainPending | streamreceiver/main.cpp:507-525 | the drain loop terminates and computes Drain of the state before it |
| Receiver.StreamReceiver.LayIn | streamreceiver/main.cpp:494-503 | one packet changes one entry, as Absorb says; duplicates and payloads that do not fit change nothing |
| Receiver.StreamReceiver.FilePacket | streamreceiver/main.cpp:483-525 | filing, opening, filling and draining, including the early exit that leaves a 0-of-0 entry behind |
| Receiver.StreamReceiver.OnPacket | streamreceiver/main.cpp:474-525 | resynchronisation, stale test and the rest of the loop body compute Handle of the state before |
| Receiver.StreamReceiver.OnDatagram | streamreceiver/main.cpp:458-526 | one turn of the receive loop computes Step of the state before, on any bytes |
| Reassembly.AbsorbMarksOne | streamreceiver/main.cpp:494-503 | laying packet i into an entry that holds the packets marked in `have` gives the entry that also holds i |
| Reassembly.CompleteIffAllHeld | streamreceiver/main.cpp:494-514 | recvCount counts the marks without wrapping: it reaches totalPackets if and only if every packet is there, and then the bytes are the sender's |
| Reassembly.AbsorbOrderMarks | streamreceiver/main.cpp:485-503 | after any packets in any order, every marked slice equals the sender's and all else is zero |
| Reassembly.Confluence | streamreceiver/main.cpp:485-503 | two orders give equal entries if and only if they have the same set of packets |
| Reassembly.ChunkReassembles | streamreceiver/main.cpp:485-514 | all packets of one chunk, in order, give a complete entry with the chunk's bytes |
| Reassembly.WholeFrameIffOneChunk | streamsender/main.cpp:347-376 | a receiver that gets every packet of a frame in order assembles the whole frame if and only if at most one chunk has bytes |
| Ledger.WatermarkPassesHeadIff | streamreceiver/main.cpp:516-520 | removing the front leaves the watermark above it if and only if the id is not 2^32 - 1 |
| Ledger.RemovedStaysRefusedIff | streamreceiver/main.cpp:481-520 | after a removal no packet of the removed id is accepted, if and only if the id is not 2^32 - 1 |
| Ledger.LastIdReopens | streamreceiver/main.cpp:481-520 | once id 2^32 - 1 was delivered the watermark is 0, and a packet of a decoded frame opens it again, so conservation is lost |
| Ledger.DeliverConserves | streamreceiver/main.cpp:514-517 | delivering moves one id between disjoint places and keeps the order of ids around the watermark |
| Ledger.AbandonConserves | streamreceiver/main.cpp:518-521 | giving up moves one id between disjoint places and keeps the order of ids around the watermark |
| Ledger.DrainBalances | streamreceiver/main.cpp:507-525 | the drain loop keeps conservation and order, delivers only complete and abandons only incomplete frames, and moves entries out unchanged |
| Ledger.DrainAbandonsExcess | streamreceiver/main.cpp:507-525 | the drain loop abandons no more frames than wait beyond 12, in any state |
| Ledger.DrainAbandonsPiled | streamreceiver/main.cpp:507-525 | a frame is only given up while more than 12 frames wait from it on, with whatever gaps between their ids |
| Ledger.FrontGivenUpIff | streamreceiver/main.cpp:507-525 | the drain loop gives up an incomplete front if and only if at least 13 frames wait; with 12 or fewer it only moves the watermark to the front |
| Ledger.DrainAnchors | streamreceiver/main.cpp:507-525 | the drain loop leaves the watermark at a waiting frame or right behind one that was filed |
| Ledger.DrainDrains | streamreceiver/main.cpp:507-525 | the drain loop leaves `pending` empty or with an incomplete front at the watermark and at most 12 entries |
| Ledger.HandleKeepsLedger | streamreceiver/main.cpp:474-525 | a packet of any content keeps conservation, order and the start id; the watermark and the histories only grow |
| Ledger.AtMostOneAbandoned | streamreceiver/main.cpp:474-525 | one packet abandons at most one frame |
| Ledger.DrainedAfterPacketIff | streamreceiver/main.cpp:483-525 | a packet leaves a drained receiver without empty entries if and only if it is not an accepted one of a frame not waiting with a zero packet count or a zero size |
| Ledger.BacklogKeptIff | streamreceiver/main.cpp:483-525 | the 12-frame bound and the incomplete front alone survive it if and only if it is not such a packet, or other frames wait and fewer than 12 do |
| Ledger.EmptyEntryReachesDecoder | streamreceiver/main.cpp:483-517 | an entry of 0 of 0 packets is sent to the decoder, empty, by the next frame's first packet |
| Ledger.CompleteIffAllMarked | streamreceiver/main.cpp:494-514 | an entry whose count is right is complete if and only if every packet it announced is marked |
| Ledger.AnyRunCounts | streamreceiver/main.cpp:483-525 | in every run over arbitrary datagrams recvCount is the number of marks, for frames waiting, delivered and abandoned |
| Ledger.RemovedIsNeverReopened | streamreceiver/main.cpp:481-483 | a late or duplicate packet of a frame that was delivered or abandoned changes nothing at all |
| Ledger.AnyRunKeepsLedger | streamreceiver/main.cpp:458-526 | conservation, order and right counts hold after every sequence of arbitrary datagrams that avoids the last id |
| Ledger.StartLeavesFirst | streamreceiver/main.cpp:474-481 | the first delivered frame is the one the stream started at, unless that one was abandoned, and then it was the first abandoned |
| Transport.EncodedFrameIsASenderStep | streamsender/main.cpp:347-378 | what the sender's loop puts on the wire is a sender step of the system, whatever sends fail |
| Transport.SenderKeepsInv | streamsender/main.cpp:347-378 | encoding another frame disturbs nothing that is on the wire or at the receiver |
| Transport.DeliverKeepsInv | streamreceiver/main.cpp:458-526 | any datagram on the wire, however old or repeated, keeps the invariant that ties the receiver to the sender's frames |
| Transport.RunKeepsInv | streamreceiver/main.cpp:458-526 | that invariant holds in every reachable state |
| Transport.DecoderSeesSentFrames | streamreceiver/main.cpp:458-526 | over a channel that loses, repeats, delays and reorders, the decoder is given frames in strictly increasing id order, each equal to the sender's in bytes, size, width and height, and with an odd flags field if and only if its id is a positive multiple of the keyframe period |
| Transport.EveryStateIsSettled | streamreceiver/main.cpp:474-525 | in every reachable state each filed id is in exactly one place, at most 12 frames wait, and the start id is a positive multiple of the keyframe period and leaves first |
| Transport.EntriesAreWhatWasHeard | streamreceiver/main.cpp:483-503 | in every reachable state each waiting entry is exactly what the set of packets handled since the start determines |
| Transport.RunOnlyGrows | streamreceiver/main.cpp:481-525 | along every run the watermark never falls and what was delivered, abandoned or filed stays so |
| Transport.AbandonedLacksAPacket | streamreceiver/main.cpp:514-521 | whenever a frame is given up some packet of it has not been handled: a frame with all packets present is never abandoned |
| Progress.NothingBeforeKeyframe | streamreceiver/main.cpp:474-480 | in every run, as long as no keyframe packet was handled the receiver is as it was at first |
| Progress.StepIs | streamreceiver/main.cpp:474-525 | each step of a run leaves the receiver alone, refuses a packet below the watermark, or files one frame; it gives a frame up only if the window was not kept |
| Progress.StartIsSent | streamreceiver/main.cpp:474-480 | the stream starts at a frame that was sent, has bytes, and has a positive multiple of the keyframe period as its id |
| Progress.StartsIffKeyframe | streamreceiver/main.cpp:474-480 | in every run, a datagram that meets a receiver not yet started starts it if and only if its frame's id is a positive multiple of the keyframe period, and at that frame |
| Window.LosslessIffWindowKept | streamreceiver/main.cpp:483-525 | in every run, whatever the order and repetition: nothing is given up, exactly the finished frames with bytes in front of the oldest unfinished one were decoded in turn, and the watermark has not passed that one, if and only if at every moment the oldest unfinished frame was seen before any later one and at most 12 were seen from it on |
| Window.UnkeptFrameIsLost | streamreceiver/main.cpp:481-525 | from a moment at which the window is not kept, the frame that was oldest and unfinished is never decoded, whatever arrives later |
| Window.DeliversEveryFinishedFrame | streamreceiver/main.cpp:483-525 | while the window is kept exactly the frames seen from the oldest unfinished one on wait, and once everything arrived all frames with bytes were decoded and none waits |
| Window.NothingAbandonedIffWithinWindow | streamreceiver/main.cpp:507-525 | with frames first seen in id order, nothing is abandoned if and only if never more than 12 were seen from the oldest unfinished one on |
| Window.WindowIsASpan | streamreceiver/main.cpp:507-525 | if every frame has bytes, that is that the newest frame seen is less than 12 ahead of the oldest unfinished one |
| Window.InOrderChannelDeliversAll | streamreceiver/main.cpp:483-525 | a loss-free channel that keeps frames in turn delivers exactly the frames with bytes from the start on |
| Losses.CanStartAtIff | streamsender/main.cpp:338-361 | for any frames, some run starts the receiver at a frame if and only if that frame has bytes and its id is a positive multiple of the keyframe period: every period offers a new start |
| Losses.OvertakenFrameIsLost | streamreceiver/main.cpp:481-513 | a run of four one-byte frames in which every packet arrives and none is given up, yet frame 2, overtaken by frame 3, is never decoded |
| Losses.ChunksAreMixed | streamreceiver/main.cpp:483-517 | for any two equally long chunks of one keyframe and any choice of packets, datagrams the sender emits lead to one decoded frame with the bytes mixed packet by packet |
| Encoder.NvEncoder.constructor | Video_Codec_SDK_12.2.72/Samples/NvCodec/NvEncoder/NvEncoder.cpp:320-321 | the delay is one less than the number of buffers |
| Encoder.NvEncoder.EncodeFrame | Video_Codec_SDK_12.2.72/Samples/NvCodec/NvEncoder/NvEncoderD3D12.cpp:349-382 | a call returns the bitstream submitted `delay` calls ago, or nothing, and no buffer of the ring is overwritten before it is returned |
| Encoder.NvEncoder.GetEncodedPacket | Video_Codec_SDK_12.2.72/Samples/NvCodec/NvEncoder/NvEncoderD3D12.cpp:397-443 | the loop hands out exactly the bitstreams that are due |
| Encoder.EncodedFrameIs | streamsender/main.cpp:336-342 | frame n has one chunk at most, with the bytes of picture n - delay, and the first frames have none |
| Encoder.EncodedFramesAreSendableIff | streamsender/main.cpp:336-351 | with this encoder the transport's assumptions on frames hold if and only if no bitstream is longer than 65535 * 1400 bytes |
| Encoder.StartIsForcedPictureIff | streamreceiver/main.cpp:474-479 | in every run the bytes of the frame the stream starts with are those of a picture for which an IDR was forced if and only if the keyframe period divides the delay and the picture is not the first |
| Encoder.DefaultStartIsNotForced | streamsender/main.cpp:338-342 | with a delay of 3 and a period of 120 they never are |
| Fence.ProducerStepKeepsInv | screencapture/main.cpp:257-265 | each producer CPU or GPU step keeps queue contents, fence, texture version and published fields in step |
| Fence.ConsumerStepKeepsInv | streamsender/main.cpp:287-330 | each consumer CPU or GPU step keeps every queued read behind its own wait and every wait on a published value |
| Fence.TurnKeepsInv | streamsender/main.cpp:287-330 | a whole turn of a consumer's loop is made of such steps and keeps the same |
| Fence.NextKeepsInv | screencapture/main.cpp:257-265 | any interleaved step keeps the joint invariant, and nothing a consumer saw is taken back |
| Fence.ReadsSeeWhatTheyWaitedFor | streamsender/main.cpp:284-330 | in every interleaving a read behind Wait(v) sees version v or later, later reads see no older version, and the sender never waits for a value twice |
| Fence.FrameCountIsFenceValue | screencapture/main.cpp:259-265 | between turns of the producer the frame count is the fence value modulo 2^32 and the published value is the latest |
| Fence.NoOrphanWait | screendisplay/main.cpp:386-390 | each value a consumer waits for, or is about to, is signalled or has its signal queued |
| Fence.QueueRunsDry | screencapture/main.cpp:257-262 | the producer's GPU can always finish on its own, and the fence then covers every published value |
| Fence.ProducerQueueUnblocks | screendisplay/main.cpp:386-390 | the producer's queue alone unblocks every wait of a consumer |
| Fence.ReadCanMeetTheNextCopy | screencapture/main.cpp:257-265 | a run in which the read that waited for version 1 overlaps the copy of version 2: exactly v does not hold |
| Publication.ScreenCapture.constructor | screencapture/main.cpp:218-232 | the producer starts with no value signalled or published |
| Publication.ScreenCapture.OnAcquire | screencapture/main.cpp:241-268 | an acquired frame is one turn of the protocol's producer; a timeout or lost access is none |
| Publication.CyclesKeepInv | screencapture/main.cpp:257-265 | any number of turns keeps the producer invariant and publishes one value each |
| Publication.Advertised | streamreceiver/main.cpp:449-452 | the advertised extent is positive, within the texture and the decoded image, the packet's where that fits, and otherwise all that was copied |
| Publication.DecodeOutput.constructor | streamreceiver/main.cpp:411-415 | decode output starts as a producer with nothing published |
| Publication.DecodeOutput.Publish | streamreceiver/main.cpp:425-454 | one converted image is one turn of the producer and advertises its clipped size |
| Publication.DecodeOutput.DeliverImage | streamreceiver/main.cpp:419-454 | an image is published if and only if it is present, has a positive size and its kernel launch succeeded; otherwise nothing changes |
| Publication.DecodeOutput.DeliverFrame | streamreceiver/main.cpp:417-456 | the published positions are exactly those of images present, of positive size and converted; the fence value rises by their number, one producer turn each, and the last of them decides the advertised size, which stays if there is none |
| Display.RetireKeepsPaced | screendisplay/main.cpp:377-392 | the GPU finishing a command keeps signals in order and each allocator's value no earlier than its queued lists |
| Display.SubmitKeepsPaced | screendisplay/main.cpp:386-443 | one submission keeps the same |
| Display.RetireKeepsGuarded | screendisplay/main.cpp:384-390 | a command list that samples the texture runs only after the wait for its own fence value was passed, and the rest of the queue stays so guarded |
| Display.SubmitKeepsGuarded | screendisplay/main.cpp:384-436 | one submission keeps the same; its command list samples exactly the published value, so nothing before a first one, and then waits for nothing |
| Display.ReachedValueMeansIdle | screendisplay/main.cpp:377-392 | once the fence reached an allocator's value no command list recorded with it is queued |
| Display.NewestReachedIffEmpty | screendisplay/main.cpp:448-454 | the fence has its newest value if and only if the GPU queue is empty |
| Display.SubmitIsATurn | screendisplay/main.cpp:384-436 | submitting a frame is a turn of the protocol's consumer: its wait then its read, or neither before a first value |
| Display.RetireIsGpuStep | screendisplay/main.cpp:384-436 | the GPU finishing a command is what the protocol's consumer does on its GPU, once the producer's fence lets a wait pass |
| Display.RenderLoop.constructor | screendisplay/main.cpp:297-304 | the loop starts with an empty queue and zero values |
| Display.RenderLoop.Retire | screendisplay/main.cpp:384-392 | the GPU finishing a command keeps the loop's invariant and moves the command to the finished ones; a sampling command list finds its fence value passed |
| Display.RenderLoop.WaitForFence | screendisplay/main.cpp:377-382 | the wait terminates with the value reached and only retires commands from the front |
| Display.RenderLoop.Enqueue | screendisplay/main.cpp:386-442 | a frame's commands are appended in order, and the allocator is reset only when no list of it is unfinished |
| Display.RenderLoop.Submit | screendisplay/main.cpp:386-443 | given the allocator's value is reached, its reset is legal, and exactly one frame's commands are appended |
| Display.RenderLoop.RenderFrame | screendisplay/main.cpp:369-446 | each turn meets the reset's precondition for any back-buffer index and GPU progress, adds exactly its own commands to the history, and records the new value for that allocator only |
| Display.RenderLoop.Teardown | screendisplay/main.cpp:448-454 | after the drain the GPU queue is empty, the fence has its last value, and one signal was added to what was submitted |
| Display.RenderLoop.Run | screendisplay/main.cpp:369-454 | for any sequence of indices, fence values and GPU progress every reset is legal, and what the GPU ran is, turn by turn, the wait for the value read in that turn if it is positive, the list that samples at exactly that value with the allocator of the back buffer then current, the present and the next fence value, and after the last turn a single signal |
| Lanes.PowerTest | cuda/include/cooperative_groups.h:747-753 | `(t & (t - 1)) == 0` holds if and only if t is a power of two |
| Lanes.RoundsDown | cuda/include/cooperative_groups.h:757-762 | `x & ~(t - 1)` is x rounded down to a multiple of the tile size |
| Lanes.RanksAreDistinct | cuda/include/cooperative_groups.h:822-824 | members have the same rank if and only if they are the same lane, and all ranks lie below the size |
| Lanes.MemberOfRank | cuda/include/cooperative_groups.h:822-824 | every number below the size is the rank of a member |
| Lanes.PackIsDetermined | cuda/include/cooperative_groups.h:730-742 | a word is the packing if and only if bit rank(i) is bit i for every member and all bits from the size on are zero |
| Lanes.PackKeepsCount | cuda/include/cooperative_groups.h:730-742 | the packing has as many ones as the mask has members marked |
| Lanes.PackLanes | cuda/include/cooperative_groups.h:730-742 | the loop computes the packing, for any width |
| Lanes.Ballot | cuda/include/cooperative_groups.h:918-924 | the full-warp shortcut returns the same as packing would |
| Tiles.TilesAreEqualOrDisjoint | cuda/include/cooperative_groups.h:769-788 | a member is in its own tile; two members' tiles are equal if and only if their ranks have the same quotient, and otherwise have no lane in common |
| Tiles.TileHasSize | cuda/include/cooperative_groups.h:769-788 | a tile has t members, or what remains of the group if that is less |
| Tiles.RankInTile | cuda/include/cooperative_groups.h:769-788 | within its tile a lane's rank is the remainder of its rank |
| Tiles.TileNumbers | cuda/include/cooperative_groups.h:784-786 | the tile numbers in use are exactly those below the rounded-up quotient |
| Tiles.ScanTile | cuda/include/cooperative_groups.h:769-782 | the lane-scanning loop selects exactly the members whose rank has the caller's quotient |
| Tiles.FastFormRefinesScanIff | cuda/include/cooperative_groups.h:757-782 | on a run of consecutive lanes shift-and-mask selects the scan's lanes for every member if and only if the run starts at a multiple of the tile size |
| Tiles.FastBranchIsTheTile | cuda/include/cooperative_groups.h:757-767 | on every aligned run, ragged or not, shift-and-mask yields the scan's tile, again an aligned run |
| Tiles.FastCountIsRightIff | cuda/include/cooperative_groups.h:764-765 | the fast branch's tile count is the number of tiles, and exceeds every tile number, if and only if the tile size divides the group's size |
| Tiles.RaggedBlock | cuda/include/cooperative_groups.h:757-767 | thread 40 of a block of 44, in tiles of 32 and then 8, gets tile number 1 of 1 |
| Tiles.SmallGroupIsOneTile | cuda/include/cooperative_groups.h:753-755 | a group no larger than the tile size is its own tile |
| Tiles.ShiftTile | cuda/include/cooperative_groups.h:757-762 | the shift-and-mask branch returns the scan's tile when the group is an aligned run |
| Tiles.GetTiledThreads | cuda/include/cooperative_groups.h:745-795 | bad sizes abort; otherwise the members are the scan's tile in every branch, tiled groups stay aligned runs, and count and number are as the branch computes them |
| Tiles.GetBlockTile | cuda/include/cooperative_groups.h:620-642 | bad sizes abort; otherwise the mask is the existing threads of the caller's warp with the caller's tile number, an aligned run, with the rounded-up tile count |
| Tiles.BlockMask | cuda/include/cooperative_groups.h:629-634 | the shift by lane gives the lanes selected by block rank, ragged last tile included |
| Crop.ViewportIsIntersection | chromecapture/main.cpp:252-305 | the chosen pixels are those of the child window inside the pool whenever there are any, and always pixels of the pool |
| Crop.Viewport | chromecapture/main.cpp:252-305 | the area is never empty, and a pool pixel is in it if and only if it is one of the child's, or, without a meeting child, the window has no caption, or 88 * dpi mod 2^32 / 96 rows are not less than the pool's, or the pixel lies below them |
| Crop.FallbackCutsTheTop | chromecapture/main.cpp:292-304 | when no pool pixel is the child's, exactly the captioned window's top rows are cut, if the pool is higher than they are |
| Crop.FallbackAt96 | chromecapture/main.cpp:292-304 | at 96 DPI a captioned 1000 by 800 window gives rows 88 to 799, one without caption all of them, and one of 88 rows all of them |
| Crop.SamePixelsSameArea | chromecapture/main.cpp:252-305 | the pixels fix the four numbers of a non-empty area |
| Crop.ComputeCrop | chromecapture/main.cpp:252-305 | the stepwise clipping computes that area, with its pixels stated again for both cases, and no LONG operation overflows |
| Crop.StepKeepsInv | chromecapture/main.cpp:689-755 | each resize or frame event keeps crop, published size and overlay equal, inside pool and texture, and every copy in bounds |
| Crop.AnyRunPublishesSafely | chromecapture/main.cpp:560-755 | the same after start-up and every sequence of events |
| Crop.CropIsViewportInTexture | chromecapture/main.cpp:675-723 | after every frame event the crop's pixels are the viewport's within the texture's extent, counted from the window's corner |
| Crop.ResizeIs | chromecapture/main.cpp:698-723 | a frame of another size sets the pool to that size, at least one pixel each way, and copies nothing; a frame of the pool's size leaves the pool |
| Crop.CopyIsCropInSurface | chromecapture/main.cpp:726-743 | a steady frame copies the pixels of the crop that its surface has, if there are any, and records the published size |
| Crop.Texture | chromecapture/main.cpp:569-579 | the texture is the smallest that holds both the monitor's extent and the first crop |
| Crop.WidthIsKeptIff | chromecapture/main.cpp:675-677 | the published width is what the texture could hold of the viewport if and only if the viewport starts at the window's edge or ends within the texture's width |
| Crop.FirstFrameKeepsSizeIff | chromecapture/main.cpp:576-579 | the first frame with an unchanged layout keeps the size published at start-up if and only if the crop ends within the texture |
| Crop.FirstFrameCutsTheCrop | chromecapture/main.cpp:576-579 | a layout and monitor at which the first frame cuts a viewport of 1900 pixels, which fits the texture, to 1800 |
| Crop.SteadyFrameIsCopiedIff | chromecapture/main.cpp:726-736 | a steady frame is copied if and only if the crop kept some size and starts inside the surface |
| Crop.CopyIsWholeIff | chromecapture/main.cpp:734-743 | the copied box has the published size if and only if the surface reaches to the end of the crop |
| Crop.ChromeCapture.constructor | chromecapture/main.cpp:560-579 | start-up publishes the first crop and makes the texture at least as large |
| Crop.ChromeCapture.ApplyCrop | chromecapture/main.cpp:675-687 | crop, published size and overlay become the clipped area together, or stay |
| Crop.ChromeCapture.RecomputeCrop | chromecapture/main.cpp:719-723 | the crop becomes the clipped viewport of the current layout and pool |
| Crop.ChromeCapture.Resize | chromecapture/main.cpp:702-713 | a resize sets the pool to at least one pixel each way and recomputes the crop for it |
| Crop.ChromeCapture.Publish | chromecapture/main.cpp:734-754 | a copy is recorded exactly when its box is non-empty, and is then one turn of the protocol's producer |
| Crop.ChromeCapture.OnFrameArrived | chromecapture/main.cpp:689-755 | the callback computes Step of the state before, keeps the invariant, and publishes one fence value for each copy |

## Left out

- Sockets, Winsock set-up, argument parsing, console handlers: input and output; a failed send is a lost datagram, a receive error a skipped turn.
- What the encoder hardware and the decoder compute, CUDA and D3D calls and pixels: a bitstream is an arbitrary byte string, the decoder is the list of frames given to it, a texture is a version number.
- The encoder's tail after the loop ends (streamsender/main.cpp:381-382): nothing of it is sent.
- The sender's own allocator ring (streamsender/main.cpp:298-301): its safety rests on how the encoder hands out input buffers, which is not part of this model.
- Frame ids from 2^32 - 1 on in the run theorems: `Ledger.RemovedStaysRefusedIff` and `Ledger.LastIdReopens` say what breaks there.
- Frames of several chunks and oversized chunks in the run theorems: what they do is `Reassembly.WholeFrameIffOneChunk`, `Losses.ChunksAreMixed` and `Packetizer.PayloadsCoverChunkIff`.
- Forged packets in the run theorems of `Transport`: `Ledger` covers packets of any content, without a promise about the bytes delivered.
- Receiver.StreamReceiver.DrainPending: `std::map` is a map of values whose front is the least key; references into it and allocation are not modelled.
- Encoder.NvEncoder.EncodeFrame: the hardware's bitstreams are arbitrary arguments; errors and the 32-bit picture counters' wrap-around are not modelled.
- Sender.StreamSender.EncodeNext: `info->width` is read twice by the source and once here, so a change between the two reads is not modelled; encoding, waiting and sending are one call.
- Fence.ReadsSeeWhatTheyWaitedFor: 64-bit reads of the shared cell are atomic, a GPU copy is a begin and an end step, and one consumer is modelled at a time; fence value 2^64 - 1 is not reached.
- Display.RenderLoop.WaitForFence: a shared-fence wait at the front of the queue is retired like any command; that it always can be is `Fence.ProducerQueueUnblocks`.
- Lanes.PackLanes: masks are rows of bits instead of 32-bit words; rows of any length.
- Tiles.GetTiledThreads: the abort is a missing result, and a tiled group is an aligned run only if the caller says so, since the fields are writable.
- Crop.ChromeCapture.OnFrameArrived: window handles, the two mutexes and the overlay thread are not modelled; answers of the window system are arguments, and 64-bit fence values do not wrap.
- Picker dialog, overlay window, shaders and adapter selection: user interface or plain searches.
- `streamruntime`, the other CUDA and Video Codec SDK headers, and barriers, shuffles and multi-warp groups: dispatch by constants, declarations, or hardware intrinsics.
