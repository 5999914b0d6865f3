# Verified models of the eCam client

eCam is a camera client for ESP32-class chips: a detector for framed codes on top of
a camera driver, an LCD driver, over-the-air updates, a console and an application
trace. This project models the parts of it that carry protocols, allocators,
parsers and searches, and proves what they promise.

| module | models |
|---|---|
| `RingBuffer` | the trace component's ring, which shrinks when a grant wraps early |
| `TracePackets`, `TraceTransport` | packets and the two-block transport to the host, with its pending and down rings |
| `OtaWriter` | `esp_ota_write` and `esp_ota_end`: sequential erase, 16-byte carry-over |
| `OtaSelect` | the two-entry log that selects the boot partition, power loss, rollback |
| `DmaSizes`, `PixelCopy`, `CameraTask` | the camera's buffer sizes, its copy loop, its frame ownership |
| `SplitArgv`, `ArgvPrinting` | the console's in-place tokenizer, and printing as its inverse |
| `LcdWriter` | the double-buffered LCD writer and its descriptor chains |
| `QrFinder` | the two scanning passes of the frame detector |
| `Bytes`, `Arithmetic` | shared sequence and division facts |

Objects whose methods update fields are classes (`Ring`, `Membufs`, `Camera`,
`OtaHandle`, `OtaStore`, `Lcd`); loops over buffers are methods over arrays. What the
host, the hardware, the clock and the client do is a parameter: a script of swap
replies and timeouts, of events, of client actions, of bytes left by power loss. Each
`Run` method quantifies over all such scripts.

## Findings

Each is stated by a member below, with the exact condition where there is one.

- In sequential mode without flash encryption an image that exactly fills the partition
  is refused, because the erase reaches one sector further (`ExactFillRefused`). With
  encryption it depends on how the image is cut (`ExactFillDepends`; `WriteAll` has the
  exact condition).
- With flash encryption the padded tail block written by `esp_ota_end` can land in a
  sector that was never erased, and success is reported all the same; `Install` and
  `TailWrite` give the exact condition in terms of the lengths of the write calls, and
  `TailInUnerasedSector` an input.
- A slot switch whose next number is 2^32 - 1 writes the erased value and has no effect
  (`SwitchBoots`, `LastSwitchLost`). The comment at esp_ota_ops.c:397-411 does not
  mention it.
- Switching between slots is atomic under power loss; confirming the running image and
  returning to the factory image are not, and the exact conditions under which they are
  are `MarkValidAtomicIff` and `FactoryAtomicIff`, with `MarkValidNotAtomic` and
  `FactoryNotAtomic` as inputs.
- With PSRAM and a frame no larger than the half-buffer maximum, the camera's event
  queue is created with no place at all (`CalcRgbDma`). `CameraTask` takes queues with
  at least one place.
- A frame started while an end-of-half event of the previous one is still queued can
  hold a half of the one before (`StaleFrame` is a run that delivers such a frame);
  `Run` claims contents for the others.

## Model

| member | source | states |
|---|---|---|
| `RingBuffer.Ring.constructor` | Client/QrPosing/components/app_trace/include/esp_app_trace_util.h:114-120 | a new ring is an empty queue with its full size usable |
| `RingBuffer.Ring.Produce` | Client/QrPosing/components/app_trace/app_trace_util.c:96-136 | a grant succeeds behind the write pointer while one byte short of a live byte or of the end, up to the end or wrapping early to the start while the read pointer leaves room, and only where a contiguous region is free; the region holds no queued byte and becomes the youngest end of the queue; an early wrap of a ring in use cuts the usable size to the write pointer; a refusal changes nothing |
| `RingBuffer.ShrinkAndRestore` | Client/QrPosing/components/app_trace/app_trace_util.c:109-122 | grants of 8 and 4 bytes around a read of 5 on 10 bytes: the usable size is cut to 8, and restored by the read that wraps |
| `RingBuffer.Ring.Consume` | Client/QrPosing/components/app_trace/app_trace_util.c:138-162 | succeeds exactly up to the reported read size, returns the oldest bytes and removes exactly those; a full-size ring stays full-size |
| `RingBuffer.Ring.ReadSize` | Client/QrPosing/components/app_trace/app_trace_util.c:164-175 | 0 exactly when nothing is queued, else all up to the end of the queue or of the usable size |
| `RingBuffer.Ring.WriteSize` | Client/QrPosing/components/app_trace/app_trace_util.c:177-191 | all up to the byte before the read pointer or the end; a ring that is not shrunk reports 0 only when it is full |
| `RingBuffer.Step` | Client/QrPosing/components/app_trace/app_trace_util.c:96-162 | one put or get on the ring is a step of an unbounded FIFO queue, and succeeds exactly when there is room or data in one piece |
| `RingBuffer.Run` | Client/QrPosing/components/app_trace/app_trace_util.c:96-191 | every sequence of puts and gets on a fresh ring has the results of a FIFO byte queue, each operation succeeding exactly when the offsets reached leave room, and leaves the queue's contents |
| `RingBuffer.EmptyFits` | Client/QrPosing/components/app_trace/app_trace_util.c:96-136 | an empty ring has room for a request wherever its pointers are exactly when the request is at most half the ring |
| `TracePackets.DecodePrefix` | Client/QrPosing/components/app_trace/app_trace_membufs_proto.c:13-44 | whatever prefix of a packet stream the host holds, cutting it by the headers gives the payloads of exactly the packets wholly inside it |
| `TracePackets.HeaderFields` | Client/QrPosing/components/app_trace/app_trace_membufs_proto.c:260-273 | both size fields of a header are the same, with the core number in bit 15 |
| `TracePackets.DecodeFrames` | Client/QrPosing/components/app_trace/app_trace_membufs_proto.c:260-273 | headers and payloads written one after the other are cut back into the same payloads |
| `TracePackets.HostRecovers` | Client/QrPosing/components/app_trace/app_trace_membufs_proto.c:13-44 | decoding the bytes read so far gives the first granted payloads, in order |
| `TraceTransport.DownPath.Write` | Client/QrPosing/components/app_trace/app_trace_membufs_proto.c:193-219 | stores a prefix of the data, all of it unless the ring is full afterwards, without ever shrinking the ring |
| `TraceTransport.DownPath.Take` | Client/QrPosing/components/app_trace/app_trace_membufs_proto.c:154-185 | takes the next bytes of the stored stream, as many as are wanted and lie in one piece |
| `TraceTransport.Block.Pump` | Client/QrPosing/components/app_trace/app_trace_membufs_proto.c:115-136 | block and pending ring together keep their bytes in order; afterwards the ring is empty or the block is full |
| `TraceTransport.Block.Receive` | Client/QrPosing/components/app_trace/app_trace_membufs_proto.c:96-114 | the host's bytes at the start of the returned block reach the down ring, all of them unless it is full afterwards, and the block is empty |
| `TraceTransport.Membufs.Exchange` | Client/QrPosing/components/app_trace/app_trace_membufs_proto.c:90-137 | an accepted swap exposes the block being filled, hands the host the block exposed before, and fills the returned block with pending bytes; the host's bytes arrive unless the block or the down ring is too small |
| `TraceTransport.Membufs.Swap` | Client/QrPosing/components/app_trace/app_trace_membufs_proto.c:79-139 | a swap succeeds exactly when it is accepted; accepted or refused, the stream of bytes from host to pending ring is unchanged; host data that fits the block and the down ring arrives whole, and what arrives of other data ends where block or ring is full |
| `TraceTransport.Membufs.SwapWait` | Client/QrPosing/components/app_trace/app_trace_membufs_proto.c:141-152 | succeeds exactly when an acceptance comes before the timeout; a failure leaves the block and the ring as they were |
| `TraceTransport.Membufs.WaitForBuffer` | Client/QrPosing/components/app_trace/app_trace_membufs_proto.c:221-258 | success requires an acceptance before the timeout, and follows from one if what is pending and the bytes fit the new block; a refusal after an acceptance means the pending ring has no room; the stream is longer by exactly the bytes, or unchanged |
| `TraceTransport.Membufs.Place` | Client/QrPosing/components/app_trace/app_trace_membufs_proto.c:284-330 | room is taken at the end of the stream, in the block or in the pending ring; without a swap when nothing is pending and block or ring has room; always when the host never refuses and the pending ring is no larger than the blocks; a refusal means the pending ring has no room in the end |
| `TraceTransport.Membufs.Trace` | Client/QrPosing/components/app_trace/app_trace_membufs_proto.c:275-347 | a packet is granted as a whole at the end of the stream or not at all, under the conditions of Place; one larger than the block is refused |
| `TraceTransport.Membufs.Flush` | Client/QrPosing/components/app_trace/app_trace_membufs_proto.c:349-371 | terminates by the measure marker plus pending bytes; succeeds exactly when at most min_sz bytes are left in the block, and then, after a swap and with min_sz below both block sizes, nothing is pending; two accepted swaps are enough when the pending ring is no larger than the blocks |
| `TraceTransport.Membufs.FlushBlock` | Client/QrPosing/components/app_trace/app_trace_membufs_proto.c:358-368 | each swap decreases marker plus pending bytes by exactly the bytes delivered |
| `TraceTransport.Membufs.DownBufferGet` | Client/QrPosing/components/app_trace/app_trace_membufs_proto.c:154-185 | hands out the next bytes of the down stream, or nothing, and that only with the ring empty; the up stream is unchanged |
| `TraceTransport.Membufs.Read` | Client/QrPosing/components/app_trace/app_trace.c:143-183 | the buffer gets the next bytes of the down stream, the bytes before them stay |
| `TraceTransport.Membufs.ReceiveResponse` | Client/QrPosing/components/app_trace/host_file_io.c:109-124 | the buffer holds the next bytes of the down stream however the reads were split; success exactly when it is full, and a host whose data is free to arrive and looked for has then delivered all it has if it is not |
| `TraceTransport.Run` | Client/QrPosing/components/app_trace/app_trace_membufs_proto.c:79-139 | over every run of grants, flushes and responses under every pattern of refusals and timeouts: host, exposed block, current block and pending ring together are the granted packets in grant order, and the host decodes the first of them; what the responses received and what is waiting are what the replies brought, in order; every step succeeds when the host never refuses, blocks are as large as the pending ring and packets fit them; every response succeeds for which the host has data enough when that is free to arrive |
| `OtaWriter.EraseRange` | Client/QrPosing/components/app_update/esp_ota_ops.c:187-201 | the range starts at the first byte not yet erased and ends at the sector boundary behind wrote_size + size |
| `OtaWriter.ErasedEnough` | Client/QrPosing/components/app_update/esp_ota_ops.c:203-243 | the sectors a write call erases cover what it programs, carried-over bytes included |
| `OtaWriter.EraseStep` | Client/QrPosing/components/app_update/esp_ota_ops.c:187-201 | the erase of a call touches no programmed byte and leaves the cells programmed, clean, untouched in this order |
| `OtaWriter.OtaHandle.EraseFor` | Client/QrPosing/components/app_update/esp_ota_ops.c:187-201 | succeeds exactly when wrote_size + size is below the partition size; the accepted bytes stay in place |
| `OtaWriter.OtaHandle.TopUp` | Client/QrPosing/components/app_update/esp_ota_ops.c:212-230 | the first bytes join the carried block, which is programmed exactly when complete |
| `OtaWriter.OtaHandle.Store` | Client/QrPosing/components/app_update/esp_ota_ops.c:232-244 | complete blocks are programmed and the rest carried over; the stream grows by the data |
| `OtaWriter.OtaHandle.Write` | Client/QrPosing/components/app_update/esp_ota_ops.c:173-251 | accepted exactly when the magic byte is right and the erase or the program range fits; unless bytes were programmed beyond what is erased, flash up to wrote_size and the carried bytes are the accepted bytes; in sequential mode only clean cells are programmed and no programmed one erased |
| `OtaWriter.OtaHandle.End` | Client/QrPosing/components/app_update/esp_ota_ops.c:313-356 | bytes are programmed unerased exactly when the end, tail block included, goes beyond what was erased; otherwise the image is a prefix of flash |
| `OtaWriter.TailWrite` | Client/QrPosing/components/app_update/esp_ota_ops.c:330-339 | in sequential mode the tail goes beyond the erased sectors exactly when bytes are carried over, their block begins a sector, and no write call reached that sector |
| `OtaWriter.TailInUnerasedSector` | Client/QrPosing/components/app_update/esp_ota_ops.c:330-339 | 15 then 4095 bytes with encryption: the tail is programmed into an unerased sector, what is left there is not the image, and success is reported |
| `OtaWriter.WriteAll` | Client/QrPosing/components/app_update/esp_ota_ops.c:173-251 | all write calls are accepted exactly when the image starts with the magic byte and each call is within the partition by what it erases (sequential mode: all before it, rounded down to a block with encryption, plus its size, below the partition size) or by what it programs |
| `OtaWriter.Install` | Client/QrPosing/components/app_update/esp_ota_ops.c:113-356 | on a partition with any contents: exactly when the update is opened and accepted and what esp_ota_end answers; bytes are programmed unerased exactly when the tail misses the erased sectors (a condition on the lengths of the write calls) or, when erased at the start, the image is longer than what was erased, so never for an unknown size or an image no longer than declared; otherwise, whatever the cutting, the image is a prefix of flash |
| `OtaWriter.BeginErase` | Client/QrPosing/components/app_update/esp_ota_ops.c:146-157 | the whole partition for an unknown size or 0, nothing in sequential mode, else exactly the declared size rounded up to sectors, refused exactly when that is not in the partition; sizes whose rounding wraps at 32 bits excepted |
| `OtaWriter.ExactFillRefused` | Client/QrPosing/components/app_update/esp_ota_ops.c:187-201 | without encryption an image exactly as long as the partition is refused in sequential mode, however it is cut |
| `OtaWriter.ExactFillDepends` | Client/QrPosing/components/app_update/esp_ota_ops.c:187-201 | with encryption the acceptance of an image that fills a sector-sized partition depends on the cutting: one call is refused, 15 bytes and then the rest are accepted |
| `OtaSelect.CountFrom` | Client/QrPosing/components/app_update/esp_ota_ops.c:374-382 | the number of consecutive slots present |
| `OtaSelect.Active` | Client/QrPosing/components/bootloader_support/src/bootloader_common_loader.c:51-112 | a valid entry is in use, neither rejected nor aborted nor erased and with the right checksum, with the greater number, the first on a tie; none exactly if none is valid |
| `OtaSelect.DefaultIsLeast` | Client/QrPosing/components/app_update/esp_ota_ops.c:474-500 | factory by default, else the least slot |
| `OtaSelect.NextNumber` | Client/QrPosing/components/app_update/esp_ota_ops.c:413-422 | the search ends, without 32-bit wrap-around, at the first number from the old one on that selects the slot |
| `OtaSelect.NextNumberUnique` | Client/QrPosing/components/app_update/esp_ota_ops.c:408-419 | that number is the only one less than the slot count ahead |
| `OtaSelect.SlotOf` | Client/QrPosing/components/app_update/esp_ota_ops.c:519-523 | a number congruent to the slot plus one boots that slot |
| `OtaSelect.SwitchBoots` | Client/QrPosing/components/app_update/esp_ota_ops.c:384-429 | after a switch the boot query gives the slot asked for, unless the new number is the erased value; then the switch is lost |
| `OtaSelect.SwitchAtomic` | Client/QrPosing/components/app_update/esp_ota_ops.c:358-372 | power loss during a switch leaves the old boot partition or the new one |
| `OtaSelect.OtaStore.Switch` | Client/QrPosing/components/app_update/esp_ota_ops.c:384-429 | only the sector not in use is rewritten, with the next number, its checksum and the state of a fresh image; a subtype outside the slots changes nothing |
| `OtaSelect.OtaStore.MarkValid` | Client/QrPosing/components/app_update/esp_ota_ops.c:704-748 | the entry in use is confirmed, the boot partition stays |
| `OtaSelect.OtaStore.MarkInvalid` | Client/QrPosing/components/app_update/esp_ota_ops.c:724-753 | the restart is reached exactly when the image of the other entry's slot, or of factory if that entry is not valid, checks, and the boot query then gives that very partition |
| `OtaSelect.RollbackBoots` | Client/QrPosing/components/app_update/esp_ota_ops.c:648-700 | with the entry in use rejected, the boot query gives the partition whose image the rollback check verified |
| `OtaSelect.RollbackAtomic` | Client/QrPosing/components/app_update/esp_ota_ops.c:724-736 | power loss during a rollback leaves the old partition or the checked one |
| `OtaSelect.MarkValidAtomicIff` | Client/QrPosing/components/app_update/esp_ota_ops.c:712-723 | confirming is safe under power loss if and only if nothing is written, because the entry is confirmed already, or the other entry (the default if it is not valid) names the same partition |
| `OtaSelect.MarkValidNotAtomic` | Client/QrPosing/components/app_update/esp_ota_ops.c:712-723 | two slots where power loss while the image in slot 1 is confirmed boots slot 0 |
| `OtaSelect.FactoryAtomicIff` | Client/QrPosing/components/app_update/esp_ota_ops.c:441-449 | returning to the factory image is atomic under power loss if and only if the second entry is not valid or names the partition booted before |
| `OtaSelect.FactoryNotAtomic` | Client/QrPosing/components/app_update/esp_ota_ops.c:441-449 | two slots where power loss between the two erases boots a third partition |
| `OtaSelect.LastSwitchLost` | Client/QrPosing/components/app_update/esp_ota_ops.c:413-422 | from number 2^32 - 2 on two slots, the switch to slot 0 writes the erased value and is lost |
| `OtaSelect.SwitchOrCrash` | Client/QrPosing/components/app_update/esp_ota_ops.c:358-429 | a switch, completed or cut short, leaves the old boot partition or the new one and never decreases the number in use |
| `OtaSelect.RunSwitches` | Client/QrPosing/components/app_update/esp_ota_ops.c:384-529 | over every run of completed and interrupted switches from empty data: each boots the old or the asked-for slot, a completed one the asked-for slot; numbers start at 1, never decrease and grow by less than the slot count |
| `DmaSizes.NodeWithinLine` | Client/ImageProcessing/ESP/updated_driver_files/ll_cam.c:317-325 | the largest divisor of the line up to the node maximum |
| `DmaSizes.LinesPerNode` | Client/ImageProcessing/ESP/updated_driver_files/ll_cam.c:326-339 | the largest number of whole lines in a node that divides the height |
| `DmaSizes.NodeSize` | Client/ImageProcessing/ESP/updated_driver_files/ll_cam.c:309-340 | nodes tile the smallest half buffer, which is a whole number of lines dividing the height |
| `DmaSizes.HalfBuffer` | Client/ImageProcessing/ESP/updated_driver_files/ll_cam.c:352-363 | the largest usable multiple of the smallest half buffer; the search ends before reaching zero |
| `DmaSizes.WholeFrame` | Client/ImageProcessing/ESP/updated_driver_files/ll_cam.c:352-363 | the half buffer is the whole frame when the frame fits |
| `DmaSizes.BufferSize` | Client/ImageProcessing/ESP/updated_driver_files/ll_cam.c:365-380 | a whole number of half buffers and of nodes: the frame with PSRAM, else the most that fit twice the maximum |
| `DmaSizes.CalcRgbDma` | Client/ImageProcessing/ESP/updated_driver_files/ll_cam.c:309-382 | refused exactly when a line exceeds the half maximum; else node divides half, line divides half, half divides frame and buffer, no larger half and no larger node does, and the event queue has a place exactly without PSRAM or with a frame larger than the half maximum |
| `DmaSizes.AllocateDescriptors` | Client/ImageProcessing/ESP/updated_driver_files/cam_hal.c:231-248 | each descriptor covers the next node of the buffer and links to the next one, the last to the first |
| `DmaSizes.OneRing` | Client/ImageProcessing/ESP/updated_driver_files/cam_hal.c:236-245 | following the links visits the descriptors in one ring |
| `DmaSizes.ExactTiling` | Client/ImageProcessing/ESP/updated_driver_files/cam_hal.c:236-245 | every byte of the buffer is in exactly one descriptor |
| `DmaSizes.ConfigureDma` | Client/ImageProcessing/ESP/updated_driver_files/cam_hal.c:250-316 | the chosen sizes and the descriptors built from them fit: one ring over exactly the buffer |
| `PixelCopy.ToGrey` | Client/ImageProcessing/ESP/updated_driver_files/ll_cam.c:405-424 | keeps every other byte, also in place |
| `PixelCopy.ConvertedAt` | Client/ImageProcessing/ESP/updated_driver_files/ll_cam.c:405-424 | what is stored is every other byte of what is received, or each |
| `PixelCopy.Memcpy` | Client/ImageProcessing/ESP/updated_driver_files/ll_cam.c:405-424 | the copy or conversion, its length, and nothing else changed; with conversion all of it exactly for whole groups of eight |
| `PixelCopy.InPlaceAgrees` | Client/ImageProcessing/ESP/updated_driver_files/cam_hal.c:476-478 | converting in place gives the bytes of converting into another buffer |
| `CameraTask.Camera.Half` | Client/ImageProcessing/ESP/updated_driver_files/cam_hal.c:103-110 | a finished DMA half is received and its event queued; every invariant is kept: no uncopied half is overwritten while its event is queued |
| `CameraTask.Camera.Pulse` | Client/ImageProcessing/ESP/updated_driver_files/cam_hal.c:103-110 | a VSYNC joins the event queue, or on a full queue stops the capture; every invariant is kept |
| `CameraTask.Camera.GetNextFrame` | Client/ImageProcessing/ESP/updated_driver_files/cam_hal.c:73-86 | the frame found is enabled; none is found exactly when none is enabled |
| `CameraTask.Camera.StartFrame` | Client/ImageProcessing/ESP/updated_driver_files/cam_hal.c:88-101 | DMA is started on the current frame if enabled, else on the first enabled one; the frame is emptied and nothing counts as received; if none is enabled nothing is started |
| `CameraTask.FillingAfterCopy` | Client/ImageProcessing/ESP/updated_driver_files/cam_hal.c:144-155 | copying the next half keeps the frame the picture of the halves received |
| `CameraTask.Camera.OnEof` | Client/ImageProcessing/ESP/updated_driver_files/cam_hal.c:143-161 | without PSRAM a half that fits is copied behind those before it, and one that does not stops DMA and changes nothing else; a JPEG whose first half has no start marker stops the capture |
| `CameraTask.StartMarker` | Client/ImageProcessing/ESP/updated_driver_files/cam_hal.c:156-161 | that is the only case in which a half that fits, or goes to PSRAM, stops the capture |
| `CameraTask.Camera.EndFrame` | Client/ImageProcessing/ESP/updated_driver_files/cam_hal.c:167-215 | a capture counts exactly into PSRAM, as a JPEG of one half at least, or with its length fb_size; then its frame is last in the delivery queue, whatever others do in between, unless the client has emptied a full queue; with no one else active the queue is exactly the old one with the frame behind it, the oldest giving way on a full one |
| `CameraTask.Camera.SendInHand` | Client/ImageProcessing/ESP/updated_driver_files/cam_hal.c:197-214 | the frame goes to the end of the delivery queue, unless the client has emptied a full queue; with no one else active the queue is exactly the old one with the frame behind it, the oldest giving way on a full one |
| `CameraTask.Waiting` | Client/ImageProcessing/ESP/updated_driver_files/cam_hal.c:381-385 | the queue is full for a frame in hand only in grab-latest mode with all other frames in it |
| `CameraTask.Camera.Replace` | Client/ImageProcessing/ESP/updated_driver_files/cam_hal.c:199-208 | the new frame is queued last and the oldest is enabled again |
| `CameraTask.Camera.OnVsync` | Client/ImageProcessing/ESP/updated_driver_files/cam_hal.c:163-223 | the capture ends as EndFrame says, and the current or else the first enabled frame is started, or the task is idle because none is enabled |
| `CameraTask.Camera.Round` | Client/ImageProcessing/ESP/updated_driver_files/cam_hal.c:113-229 | one event of the task: ignored when idle, a start, a half or an end, with the exact new state in all modes when no one else is active and the queue has a place; ownership, order, lengths and contents are kept |
| `CameraTask.Camera.TakeOne` | Client/ImageProcessing/ESP/updated_driver_files/cam_hal.c:458-485 | the client gets the oldest queued frame, complete in raw mode; a JPEG without end marker is enabled again instead; no other frame changes |
| `CameraTask.Camera.GiveBack` | Client/ImageProcessing/ESP/updated_driver_files/cam_hal.c:487-495 | the returned frame, and only it, is enabled |
| `CameraTask.PlacedOnce` | Client/ImageProcessing/ESP/updated_driver_files/cam_hal.c:73-229 | a frame is enabled, once in the queue, or with the client, and not two of these |
| `CameraTask.SomeFrameEnabled` | Client/ImageProcessing/ESP/updated_driver_files/cam_hal.c:381-385 | in grab-latest mode with several frames some frame is enabled when the client holds none |
| `CameraTask.StaleEvent` | Client/ImageProcessing/ESP/updated_driver_files/cam_hal.c:143-161 | a frame started while an end-of-half event is still queued copies a half not received since its start |
| `CameraTask.StaleFrame` | Client/ImageProcessing/ESP/updated_driver_files/cam_hal.c:139-220 | a run from the start, in every raw mode of one half a frame, three halves and two places in the queue at least, that queues a frame holding a half of the frame before it and not the one received for it |
| `CameraTask.Run` | Client/ImageProcessing/ESP/updated_driver_files/cam_hal.c:113-229 | over every interleaving of task, client and hardware: one place per frame, DMA only into enabled frames, delivery in capture order, no overlong frame, and in raw mode every queued or held frame full and, if started with no stale event, the picture of its halves; every capture that is to be delivered counts, and where no frame is replaced or given back the client gets all of them, in order and without gaps |
| `CameraTask.NoGaps` | Client/ImageProcessing/ESP/updated_driver_files/cam_hal.c:167-215 | as many captures with the client or in the queue as were numbered: the client's are the first ones, each once |
| `SplitArgv.Advance` | Client/QrPosing/components/console/split_argv.c:49-100 | one step of the five-state parser follows the definition of tokens by recursion on the text |
| `SplitArgv.ParseEnd` | Client/QrPosing/components/console/split_argv.c:102-109 | what is finished and what is in progress at the end are the tokens, cut to the slots |
| `SplitArgv.Act` | Client/QrPosing/components/console/split_argv.c:26-100 | an action writes at most one byte, not past the read pointer, and leaves finished arguments in place |
| `SplitArgv.Step` | Client/QrPosing/components/console/split_argv.c:42-101 | one character read keeps the unread text untouched and the finished arguments laid out |
| `SplitArgv.Split` | Client/QrPosing/components/console/split_argv.c:33-112 | argc is the token count cut to argv_size - 1, every entry points at a NUL-terminated string equal to its token, the entry behind is NULL, and memory behind the line is untouched |
| `ArgvPrinting.ReadBack` | Client/QrPosing/components/console/split_argv.c:66-94 | an escaped argument is read back whole up to its delimiter |
| `ArgvPrinting.TokensDropUnknown` | Client/QrPosing/components/console/split_argv.c:76-84 | a backslash before any other byte is dropped with it, wherever in a quoted or bare argument |
| `ArgvPrinting.TokensAfterSpace` | Client/QrPosing/components/console/split_argv.c:50-52 | spaces between arguments do not count |
| `ArgvPrinting.Quotes` | Client/QrPosing/components/console/split_argv.c:50-94 | a quote opens an argument only at its start; the end of the line closes one, even an empty one; an argument may begin right behind a closing quote |
| `ArgvPrinting.FirstToken` | Client/QrPosing/components/console/esp_console.h:212-236 | a printed argument is the first token of the line it starts |
| `ArgvPrinting.TokensOfPrinted` | Client/QrPosing/components/console/esp_console.h:212-236 | tokenizing a printed line gives back the arguments, quoted ones possibly empty |
| `ArgvPrinting.PrintAndSplit` | Client/QrPosing/components/console/split_argv.c:33-112 | the same through memory: after splitting the printed line in place, argv points at the arguments |
| `LcdWriter.ChainSends` | Client/QrPosing/components/bus/i2s_lcd_esp32s2_driver.c:84-96 | walking a chain reads one contiguous stretch and raises one interrupt |
| `LcdWriter.ChainCut` | Client/QrPosing/components/bus/i2s_lcd_esp32s2_driver.c:98-114 | a chain ended inside a node covers the whole nodes before it and the part |
| `LcdWriter.SetInt` | Client/QrPosing/components/bus/i2s_lcd_esp32s2_driver.c:84-96 | the descriptors form two chains, one over each half |
| `LcdWriter.SetLeft` | Client/QrPosing/components/bus/i2s_lcd_esp32s2_driver.c:98-114 | the chain of a half is cut to exactly the remaining bytes, other descriptors stay |
| `LcdWriter.SwappedConcat` | Client/QrPosing/components/bus/i2s_lcd_esp32s2_driver.c:147-160 | exchanging pairs piece by piece, at even lengths, is exchanging them in the whole |
| `LcdWriter.SwappedAt` | Client/QrPosing/components/bus/i2s_lcd_esp32s2_driver.c:147-184 | each byte goes to the other place of its pair, a last odd one stays, and without the option all do |
| `LcdWriter.FillWhole` | Client/QrPosing/components/bus/i2s_lcd_esp32s2_driver.c:145-160 | a half gets the piece, pairs exchanged if asked, and nothing else changes |
| `LcdWriter.FillLeft` | Client/QrPosing/components/bus/i2s_lcd_esp32s2_driver.c:168-184 | the same for the remaining bytes, a last odd one unchanged |
| `LcdWriter.Lcd.Receive` | Client/QrPosing/components/bus/i2s_lcd_esp32s2_driver.c:63-76 | an event already queued, or the end of the transfer under way with its bytes sent |
| `LcdWriter.Lcd.SendPiece` | Client/QrPosing/components/bus/i2s_lcd_esp32s2_driver.c:144-164 | the free half is filled while the other is sent; sent and being sent together are the data so far |
| `LcdWriter.Lcd.SendLeft` | Client/QrPosing/components/bus/i2s_lcd_esp32s2_driver.c:167-188 | the same for the last piece with its chain cut |
| `LcdWriter.Lcd.WriteData` | Client/QrPosing/components/bus/i2s_lcd_esp32s2_driver.c:130-190 | all data is sent, in order, pairs exchanged if configured; on return no transfer runs and no event is queued |
| `LcdWriter.ChooseSizes` | Client/QrPosing/components/bus/i2s_lcd_esp32s2_driver.c:253-282 | half and node sizes tile the buffer, the largest that fits; a half is a multiple of 4 from two full nodes on |
| `LcdWriter.Run` | Client/QrPosing/components/bus/i2s_lcd_esp32s2_driver.c:130-190 | over every sequence of transfers, what DMA sends is the transfers one after the other |
| `QrFinder.FollowTraced` | Client/QrPosing/app/QR_Posing.c:97-122 | following an edge yields a staircase: white with the margin above black all along, going down one row only where it cannot stay |
| `QrFinder.FollowEnds` | Client/QrPosing/app/QR_Posing.c:97-122 | and the edge could not be followed further |
| `QrFinder.FallIsRun` | Client/QrPosing/app/QR_Posing.c:128-143 | the side is an unbroken white run that ends there |
| `QrFinder.FollowTop` | Client/QrPosing/app/QR_Posing.c:93-122 | the loop measures the staircase; found exactly when longer than MinL |
| `QrFinder.FollowSide` | Client/QrPosing/app/QR_Posing.c:125-143 | the loop measures the run; found exactly when higher than MinL |
| `QrFinder.Probe` | Client/QrPosing/app/QR_Posing.c:89-162 | a corner counts exactly when both sides are long enough; the scan moves on by the length of the edge, to the right by the height of the side once the edge is long enough |
| `QrFinder.CornerCertified` | Client/QrPosing/app/QR_Posing.c:144-159 | the corners recorded for a corner that counts carry the certificate |
| `QrFinder.CertifiedUnique` | Client/QrPosing/app/QR_Posing.c:93-159 | a certificate determines the code: its corner is found, with these very corners |
| `QrFinder.Inside` | Client/QrPosing/app/QR_Posing.c:176-195 | in a box recorded before, from either direction |
| `QrFinder.ScanRow` | Client/QrPosing/app/QR_Posing.c:75-166 | ends; keeps certificates and disjoint anchors; a corner that counts and is not stepped over from an edge pixel before it is in a recorded box unless the table is full |
| `QrFinder.Pass` | Client/QrPosing/app/QR_Posing.c:169-275 | the same for every row of a pass, in either direction |
| `QrFinder.Report` | Client/QrPosing/app/QR_Posing.c:276-288 | 500 exactly when nothing is recorded; else the middle between the two upper corners of each code, rounded down, all inside the frame |
| `QrFinder.Detect` | Client/QrPosing/app/QR_Posing.c:44-288 | for every picture and MinL at least 1: the used entries are a prefix of at most five, each certified, no anchor in an earlier box; every certified code whose corner is not stepped over has it in a recorded box while there is room; the middles are reported; stale entries of the last frame do not survive |

## Left out

- TraceTransport.Membufs.Trace: a packet is granted, filled and put in one step; a packet still being filled while its block is exposed is noticed by the host only, as the source notes.
- TraceTransport.Run: waits end because the script of replies and polls is finite; a wait that never ends is not modelled. Blocks have 4 to 65535 bytes and the pending ring is present; the 8-bit header of the SystemView mode and a configured pending size of 0 are not modelled.
- RingBuffer.Run: sums of pointer and size are required to stay within 32 bits.
- TracePackets.DecodeFrames: for payloads below 2^15 bytes, since the core number takes bit 15 of the size field.
- OtaWriter.OtaHandle.Write: nothing is claimed of the handle after a failed flash write in bulk mode with encryption; sums are required to stay within 32 bits.
- OtaWriter.Install: partitions and write calls below 2^31 bytes; what a cell holds that is programmed without being erased is left open.
- OtaSelect.SwitchAtomic: a torn entry is one the checks do not accept; the entry's checksum covers its number only, and it is written last.
- OtaSelect.OtaStore.Switch: the sum of number and slot count is required to stay within 32 bits.
- CameraTask.Run: the lengths and contents of JPEG and PSRAM frames, the start and end markers themselves, and the overwriting of a half in the middle of its copy are not modelled; a repeated receive in `cam_take` is a further take.
- DmaSizes.CalcRgbDma: sizes are in DMA items; the conversion to bytes is not modelled.
- LcdWriter.Run: with exchanged pairs the half buffer is a multiple of 4 bytes, as the unrolled loop assumes.
- QrFinder.Detect: pixels are read as a total function of row and column, so out-of-range reads are not faults; thresholding and drawing are not modelled.
- The OTA handle list, `esp_ota_begin`'s checks of partition and running state, `esp_ota_write_with_offset`, `esp_ota_abort`, image verification, checksum internals, anti-rollback and key revocation.
- Locks, task scheduling, logging and wall-clock time.
- Registers, GPIO, clocks and interrupts of the camera and LCD drivers, `ll_cam_set_sample_mode`, and the ESP32 variant of the LCD driver, which follows the same protocol.
- Sensor settings, Wi-Fi, the HTTP client, command registration, the LCD user interface and the TensorFlow glue: wrappers and data with easy properties only.
