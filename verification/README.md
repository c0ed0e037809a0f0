# Verified models of the device software

This project models the parts of an ESP32 sensor application, and of the ESP-IDF components it is
built on, whose correctness rests on more than one function, and proves what those parts promise.
To verify: `dafny verify dfyconfig.toml`.

* **Application trace transport** (`Ring`, `Packets`, `TransportSpec`, `TransportLaws`, `Membufs`, `HostFileIo`). A
  byte ring hands out contiguous chunks and wraps early by shrinking its effective size. Above it, packets go into one
  of two trace blocks or into a pending ring; a swap exposes the current block to the host, takes over what the host
  left in the other block and pumps pending bytes into it. The class `MembufsProto` works on the arrays. Its
  `View` is a value, `TransportSpec.Transport`, and every call is proved to do exactly what the corresponding
  function does to that value: which bytes are where, what both rings have room for, which answers of the environment
  were used up, and what is returned. `TransportLaws` says what these functions mean. The invariant of the class says
  that the bytes exposed so far, the current block below its marker and the pending bytes are, in this order, the encoding
  of all accepted packets, and that the bytes read by the device and those still in the down ring are what the
  host sent. The environment (does the host let the device swap, does it announce data, has the timeout expired) is
  an arbitrary script of answers.
* **Event registry** (`Event`, `EventLoop`). Loop nodes hold base nodes, base nodes hold id nodes. The
  class `Loop` refines a plain log of live registrations, so that dispatch runs exactly the matching
  registrations in the order in which they were made.
* **Static initialisation guards** (`Guards`, `GuardTrace`, `GuardDrain`, `GuardHistory`). A transition system over the program
  counters of any number of tasks and guards, one mutex, one counting semaphore and one waiting
  count; the interface is the one-time construction API of the Itanium C++ ABI, section 3.3.2.
* **Over-the-air update** (`OtaWrite`, `OtaBoot`). Erase-as-you-go writes on flash whose cells
  are spoilt when they are programmed twice, with the 16-byte buffering of encrypted flash; and the
  two-sector boot selector, with power cuts between and inside its flash operations.
* **Command-line splitter** (`SplitArgv`). The in-place five-state parser against a pure reading of the
  line, and that reading against the documented ways of quoting.
* **Arithmetic kernels** (`Rtc`, `Aht`, `Adc`). The split 64-bit product and the accumulated system time;
  the CRC-8 and the fields of the sensor frame; the two steps of ADC calibration.

`Common` holds shared types and sequence and arithmetic lemmas.

## Where the code and its documentation differ

The models follow the code.

* `esp_apptrace_rb_write_size_get` is documented as the amount that can be produced. It is a lower bound:
  an unwrapped ring also admits up to `rd - 1` bytes by wrapping early
  (`Ring.WriteSizeIsExactUnlessEarlyWrap`). A ring without storage refuses even 0 bytes.
* A comment in `wait_for_guard_obj` says that a task that is pre-empted before it takes the semaphore will
  succeed at once when it goes on, because the semaphore is given once for every waiting task. It need not:
  `GuardTrace.TokensCanBeStolen` is a reachable state in which a task sleeps for a released guard and the
  semaphore is empty. `GuardTrace.TokensCanRunOutExactly` is the exact condition: the tasks in the wait can use
  up the tokens of others if and only if one of them waits behind a guard that is still pending. In that case the
  end of that guard's initialisation signals every waiter again (`Guards.NoStrandedWaiters`).
  If none does, the waiters all leave the wait by their own steps, if and only if no two of them wait for the same
  guard whose initialiser gave up (`GuardDrain.WaitersDrainExactly`).
* Setting a boot slot makes that slot boot, except in exactly these states (`OtaBoot.BootSelector.SetBoot`): number 0 is
  in force, the slot is the last one, and the number of slots does not divide 2^32 (`OtaBoot.SlotNotSelected`); or
  the next number for the slot is 2^32 - 1, which marks an erased sector (`OtaBoot.AllOnesNotSelected`); or it does not
  fit 32 bits, so that the search wraps around and finds a number that does not stand for the slot
  (`OtaBoot.WrappedNotSelected`, `OtaBoot.NoNumberForSlot`).
* The search for the next number need not end. It ends if and only if the next number modulo the power-of-two part of
  the slot count fits 32 bits (`OtaBoot.SearchEndsForCount`); `OtaBoot.EndlessSearch` is a call that does not return.
* With SystemView headers the size check of `esp_apptrace_membufs_up_buffer_get` does not look at the
  block. A packet that exceeds an empty block, but not the pending ring, is pended behind that block, and a flush
  reports success without delivering it (`TransportLaws.FlushStrandsPacket`). A configuration is free of this if and
  only if both blocks hold the largest SystemView packet that the pending ring can hold
  (`TransportLaws.FlushesDeliverExactly`); then, and always without SystemView, a successful flush of any
  run leaves nothing behind.
* A calibration value of 0 makes the next read of the retained RTC time restart at 0 (`Rtc.ZeroCalSetsTimeBack`);
  without one the time never decreases (`Rtc.RunRetained`).
* `esp_event_handler_instance_unregister_with` reports success when nothing was registered.

## Model

| member | source | states |
|---|---|---|
| Ring.RingBuffer.constructor | components/components/app_trace/include/esp_app_trace_util.h:114-120 | a new ring is an empty FIFO with its full size |
| Ring.RingBuffer.Produce | components/components/app_trace/app_trace_util.c:87-127 | succeeds exactly when the chunk is admitted, with exactly these new indices; the chunk is contiguous, in bounds, disjoint from all unread bytes, and becomes the back of the FIFO, whose other bytes do not move, early wrap or not; a failure changes nothing |
| Ring.RingBuffer.Consume | components/components/app_trace/app_trace_util.c:129-153 | succeeds exactly up to `read_size`, with exactly these new indices; hands out the oldest bytes and removes them from the FIFO |
| Ring.RingBuffer.ReadSizeGet | components/components/app_trace/app_trace_util.c:155-166 | is 0 exactly when the FIFO is empty, and never more than what is unread |
| Ring.RingBuffer.WriteSizeGet | components/components/app_trace/app_trace_util.c:168-182 | the reported size is always admitted; at full effective size it stays within the capacity and is 0 exactly when the ring is full |
| Ring.RingBuffer.Push | components/components/app_trace/app_trace_util.c:87-127 | produce and fill: an admitted chunk appends its bytes, a refused one appends nothing |
| Ring.WriteSizeIsExactUnlessEarlyWrap | components/components/app_trace/app_trace_util.c:168-182 | exact admission: more than `write_size` is admitted if and only if the ring is unwrapped and the bytes fit in front of the reader |
| Ring.ProduceAppends | components/components/app_trace/app_trace_util.c:92-122 | the index change of an admitted produce keeps the ring well formed, appends the chunk and leaves every unread byte in its cell |
| Ring.ConsumeRemoves | components/components/app_trace/app_trace_util.c:129-153 | the index change of a consume, or of a row of them, keeps the ring well formed and removes exactly the oldest bytes |
| Ring.CellsDistinct | components/components/app_trace/app_trace_util.c:87-153 | different unread bytes live in different cells |
| Ring.UnreadByCell | components/components/app_trace/app_trace_util.c:87-153 | a well-formed ring always leaves one cell unused, and each unread byte is the content of its cell |
| Packets.HeaderByIndex | components/components/app_trace/app_trace_membufs_proto.c:20-45 | the header byte by byte: two copies of the length, little-endian with the core in the top bit, or one byte each |
| Packets.DecodeByIndex | components/components/app_trace/app_trace_membufs_proto.c:20-45 | what a host makes of any four header bytes, complete or not |
| Packets.DecodeEncode | components/components/app_trace/app_trace_membufs_proto.c:20-45 | a host that reads a header finds the packet it was written for and the rest of the stream |
| Packets.DecodeAllEncodeAll | components/components/app_trace/app_trace_membufs_proto.c:261-274 | a concatenation of packets decodes to these packets in order |
| Membufs.Pump | components/components/app_trace/app_trace_membufs_proto.c:116-137 | moves the longest prefix of the pending bytes that fits into the empty block, however often the ring wraps |
| Membufs.DownBufferWrite | components/components/app_trace/app_trace_membufs_proto.c:194-220 | a host chunk contributes exactly its first min(length, free capacity) bytes, the down ring keeps its full effective size, and its indices are those of one chunk |
| Membufs.TakeHostData | components/components/app_trace/app_trace_membufs_proto.c:97-115 | the chunk behind the header the host wrote reaches the down ring |
| Membufs.MembufsProto.constructor | components/components/app_trace/app_trace_membufs_proto.c:56-78 | the start state: block 0 is current and empty, the rings are unused, both streams are empty and the invariant holds |
| Membufs.MembufsProto.Swap | components/components/app_trace/app_trace_membufs_proto.c:80-140 | refines `TrySwap`: exactly when the host allows it, the current block below its marker is exposed, the other block holds the front of the pending bytes, and the host's chunk is taken over; both streams are conserved |
| Membufs.MembufsProto.SwapWaitus | components/components/app_trace/app_trace_membufs_proto.c:142-153 | refines `Wait`: attempts until the host agrees or the timeout has expired |
| Membufs.MembufsProto.Wait4Buf | components/components/app_trace/app_trace_membufs_proto.c:222-259 | gets nothing exactly if the wait ends without a swap or without room; else the chunk continues the stream of the state after the swap: behind the marker only if nothing is pending and it fits, else at the back of the ring |
| Membufs.MembufsProto.UpBufferGet | components/components/app_trace/app_trace_membufs_proto.c:276-337 | refines `Seek`: refuses too large a size, swaps first if bytes are pending, and grants a chunk exactly if there is room then or after one more swap; the chunk extends the stream of that state |
| Membufs.MembufsProto.Write | components/components/app_trace/app_trace.c:266-303 | refines `Write`: the answer and the whole new state, with the encoded packet at the end of the stream or not at all |
| Membufs.MembufsProto.FlushNolock | components/components/app_trace/app_trace_membufs_proto.c:350-372 | refines `Flush`, and ends whatever the host does, because every swap shrinks what is undelivered |
| Membufs.MembufsProto.DownBufferGet | components/components/app_trace/app_trace_membufs_proto.c:155-186 | refines `Read`: hands out the oldest contiguous host bytes, at most the wanted number, and none exactly if the wait for the host found none |
| Membufs.MembufsProto.Read | components/components/app_trace/app_trace.c:193-208 | copies exactly those bytes to the buffer and nothing else |
| Membufs.MembufsProto.HostDecodesPackets | components/components/app_trace/app_trace_membufs_proto.c:80-140 | in every state of the protocol, what was exposed and what is still undelivered decode to the accepted packets, none lost, duplicated or reordered |
| Membufs.MembufsProto.ReadsAreHostBytes | components/components/app_trace/app_trace_membufs_proto.c:155-220 | in every state of the protocol, what was read and what is still in the down ring are the accepted host bytes in order |
| Membufs.Session | components/components/app_trace/app_trace.c:193-303 | over any run of writes, flushes and reads in any order against any environment, every answer is that of the run on values; the host decodes exactly the packets of the writes that succeeded, all of them once the last flush succeeds and the packets fit the blocks; the reads return the host's bytes in order |
| TransportSpec.SwappedKeeps | components/components/app_trace/app_trace_membufs_proto.c:80-140 | a swap loses, duplicates and reorders no byte, and leaves no pending byte behind an empty block |
| TransportSpec.WaitSwaps | components/components/app_trace/app_trace_membufs_proto.c:142-153 | a wait ends with exactly one swap, at a moment at which the host allows it, or only time has passed |
| TransportSpec.SeekKeeps | components/components/app_trace/app_trace_membufs_proto.c:276-337 | no packet is pended behind an empty block that could have held it, also when the blocks have different sizes |
| TransportLaws.WaitSucceedsExactly | components/components/app_trace/app_trace_membufs_proto.c:142-153 | without a timeout, a wait succeeds exactly if the host ever allows a swap, and uses up one |
| TransportLaws.WriteAppends | components/components/app_trace/app_trace.c:266-303 | a successful write appends the encoded packet to the stream, a failing one appends nothing |
| TransportLaws.WriteWithRoom | components/components/app_trace/app_trace_membufs_proto.c:276-337 | with nothing pending and room, the packet goes behind the marker if it fits there, else into the ring, and no time passes |
| TransportLaws.WriteBehindPending | components/components/app_trace/app_trace_membufs_proto.c:287-296 | while bytes are pending and the host keeps its block, an admitted packet is pended behind them, and block and marker stay |
| TransportLaws.WriteIntoFreshBlock | components/components/app_trace/app_trace_membufs_proto.c:287-320 | while bytes are pending and the host takes the block, a packet for which the next block has room lies behind them in that block |
| TransportLaws.WriteBehindRest | components/components/app_trace/app_trace_membufs_proto.c:287-296 | otherwise it is pended behind what the block did not take, if the ring admits it after the swap |
| TransportLaws.WriteWaits | components/components/app_trace/app_trace_membufs_proto.c:305-315 | with nothing pending and no room, a write without a timeout succeeds exactly if the host allows a swap and the next block can hold the packet |
| TransportLaws.WriteWithoutHost | components/components/app_trace/app_trace_membufs_proto.c:276-337 | while the host never takes a block, a write succeeds exactly if the size is accepted and there is room |
| TransportLaws.FlushDelivers | components/components/app_trace/app_trace_membufs_proto.c:350-372 | a successful flush leaves no more than `min_sz` bytes in the block, loses nothing, and with 0 has delivered the whole stream if the packets fit the blocks |
| TransportLaws.FlushSucceeds | components/components/app_trace/app_trace_membufs_proto.c:350-372 | without a timeout a flush succeeds if the host allows as many swaps as there are undelivered bytes |
| TransportLaws.ReadTakesFront | components/components/app_trace/app_trace_membufs_proto.c:155-186 | without a timeout a read gets the front of what the host offers, something exactly if it offers anything, and the rest stays readable |
| TransportLaws.ReadAtOnce | components/components/app_trace/app_trace_membufs_proto.c:158-166 | with unread bytes a read takes the contiguous front part of them, and nothing else happens |
| TransportLaws.RunAppends | components/components/app_trace/app_trace.c:193-303 | over any run, the stream is extended by the encoding of exactly the packets reported as written, in order |
| TransportLaws.FlushStrandsPacket | components/components/app_trace/app_trace_membufs_proto.c:276-372 | from any state with an empty block and nothing pending: any SystemView packet above that block which the pending ring admits is accepted, and a successful flush leaves it undelivered |
| TransportLaws.FlushesDeliverExactly | components/components/app_trace/app_trace_membufs_proto.c:276-372 | the exact condition on the configuration: in every run and every environment successful flushes deliver everything that was written, if and only if the largest packet that the ring can hold fits both blocks |
| HostFileIo.RspRecv | components/components/app_trace/host_file_io.c:115-130 | the buffer holds exactly the bytes that came, read after read, until it is full or a read gets nothing; success is a full buffer |
| HostFileIo.ReceivedExactly | components/components/app_trace/host_file_io.c:115-130 | bytes that have arrived are received in any case; without a timeout a response is received exactly if the host offers that many bytes, as far as the down ring accepts each offer, and it is the first of them |
| Event.BaseNodeAddHandler | components/components/esp_event/esp_event.c:212-261 | every event sees the new handler last in this base node if it matches; no id gets a second node and no node stays empty; fails exactly when an allocation fails |
| Event.LoopNodeAddHandler | components/components/esp_event/esp_event.c:263-317 | the same for the whole loop node: opening a new base node keeps registration order; fails exactly when an allocation fails that this order, or a new id, needs |
| Event.HandlerInstancesRemove | components/components/esp_event/esp_event.c:319-342 | removes exactly the instance with this context |
| Event.BaseNodeRemoveHandler | components/components/esp_event/esp_event.c:344-366 | removes exactly the key for every event, frees an id node that becomes empty, and reports a node that became empty itself |
| Event.LoopNodeRemoveHandler | components/components/esp_event/esp_event.c:368-390 | the same through all base nodes of a loop node |
| EventLoop.Loop.Register | components/components/esp_event/esp_event.c:686-760 | appends the registration to the log; any event's dispatch follows the log; invalid exactly for a rejected pair, out of memory exactly if an allocation that it needs fails, and then nothing changes |
| EventLoop.Loop.Unregister | components/components/esp_event/esp_event.c:762-816 | removes exactly the instance registered with this base and id, and no other |
| EventLoop.Loop.Dispatch | components/components/esp_event/esp_event.c:573-601 | runs the matching live instances, in log order |
| EventLoop.History | components/components/esp_event/esp_event.c:573-816 | after any history of registrations, failed or not, and unregistrations, an event runs exactly the matching live instances in registration order; a call is invalid exactly for a rejected pair, and any other one succeeds unless a registration lacks memory; contexts only have to differ from those that are live |
| EventLoop.ContextsCanBeReused | components/components/esp_event/esp_event.c:319-342 | a context address that was freed by an unregistration can be registered again in such a history |
| EventLoop.SelectExactly | components/components/esp_event/esp_event.c:573-601 | the selected entries are exactly the live ones that match any/any, base/any or base/id, in registration order |
| EventLoop.BeforeIsStrict | components/components/esp_event/esp_event.c:573-601 | so no instance runs twice for an event |
| EventLoop.SelectWithout | components/components/esp_event/esp_event.c:762-796 | unregistering one instance removes it from every event's dispatch and leaves the rest in order |
| EventLoop.WithoutLogOk | components/components/esp_event/esp_event.c:762-796 | what stays registered is exactly what has another base, id or context |
| EventLoop.KeyOccursOnce | components/components/esp_event/esp_event.c:163-210 | a base, id and context name at most one live registration |
| Guards.StepInv | components/components/cxx/cxx_guards.cpp:66-211 | every step of every task keeps the protocol invariant |
| Guards.ReachableInv | components/components/cxx/cxx_guards.cpp:66-211 | it holds in every reachable state, for any number of tasks and guards |
| Guards.StepKeepsNoStranded | components/components/cxx/cxx_guards.cpp:66-111 | no step strands a waiter, although a woken task may take another task's token |
| Guards.NoStrandedWaiters | components/components/cxx/cxx_guards.cpp:66-111 | in every reachable state some task waits behind a guard that is still pending, or the semaphore covers all tasks that still have to take it; the waiting count is the number of tasks inside the wait |
| Guards.ExactlyOnce | components/components/cxx/cxx_guards.cpp:113-190 | at most one task initialises a guard, a guard is pending exactly while it is initialised, ready excludes pending, and it is released at most once |
| Guards.AcquireReturns | components/components/cxx/cxx_guards.cpp:146-168 | acquire returns 0 exactly for a ready guard and 1 exactly to the initialising task |
| Guards.AssertionsHold | components/components/cxx/cxx_guards.cpp:58-96 | the assertions in release and abort and the documented pre- and postcondition of the wait hold |
| Guards.ReadyIsForever | components/components/cxx/cxx_guards.cpp:170-190 | ready is never undone |
| Guards.Progress | components/components/cxx/cxx_guards.cpp:66-211 | the protocol itself cannot deadlock: if no step is possible, all its tasks sleep and some guard is still being initialised |
| GuardTrace.TokensCanBeStolen | components/components/cxx/cxx_guards.cpp:78-82 | a reachable run in which a task sleeps for a released guard with an empty semaphore |
| GuardTrace.TokensCanRunOutExactly | components/components/cxx/cxx_guards.cpp:74-93 | while nobody owns the mutex, the tasks inside the wait can bring the tokens below the number of sleepers if and only if one of them waits behind a pending guard |
| GuardDrain.WaitersDrainExactly | components/components/cxx/cxx_guards.cpp:66-168 | while no other task owns the mutex, the tasks in the wait can all leave it by their own steps if and only if each waits for a ready guard, or alone for one that was given up |
| GuardDrain.EveryRunDrains | components/components/cxx/cxx_guards.cpp:66-168 | then they leave in any order of their steps: no run is longer than five steps each, and one that cannot go on has everybody out of acquire and the mutex free |
| GuardHistory.ReadyExactlyAfterRelease | components/components/cxx/cxx_guards.cpp:113-211 | for every run of calls and steps: a guard is ready if and only if some task called release for it and got past clearing it |
| GuardHistory.RunsReach | components/components/cxx/cxx_guards.cpp:113-211 | these runs reach exactly the reachable states |
| GuardHistory.AbortUndoes | components/components/cxx/cxx_guards.cpp:192-211 | an abort that nobody interrupts ends, after as many steps as it takes to wake every waiting task, with the guard neither ready nor pending and no release counted |
| GuardHistory.ReleaseCompletes | components/components/cxx/cxx_guards.cpp:170-190 | a release ends with the guard ready instead, counted once |
| GuardHistory.AcquireAloneReturns | components/components/cxx/cxx_guards.cpp:113-168 | an acquire that nobody contends for returns 0 for a ready guard, and 1 for any other, which it makes pending |
| GuardHistory.AbortThenAcquire | components/components/cxx/cxx_guards.cpp:113-211 | after an abort, the next task that asks becomes the initialiser |
| OtaWrite.Partition.EraseRange | components/components/esp_partition/partition_target.c:123-144 | erases exactly the aligned range, or fails without an effect, on a read-only partition in any case |
| OtaWrite.Partition.Write | components/components/esp_partition/partition_target.c:63-89 | programs exactly the range, spoiling cells that were not erased, or fails without an effect, on a read-only partition in any case |
| OtaWrite.EraseSpanCovers | components/components/app_update/esp_ota_ops.c:192-206 | the erased range starts at the first sector boundary not behind the write position and ends at the first one not inside the new data |
| OtaWrite.BlocksStayInErasedSectors | components/components/app_update/esp_ota_ops.c:192-246 | the range ignores buffered bytes, and still covers every block that the write completes |
| OtaWrite.Begin | components/components/app_update/esp_ota_ops.c:146-170 | erases the whole partition, the sectors of the image or nothing, in 32-bit arithmetic and no cell more, and opens an empty session that knows how much was erased; the answer is that of the erase |
| OtaWrite.ErasedForImage | components/components/app_update/esp_ota_ops.c:151-152 | what is erased for an image of known size is its size rounded up to sectors |
| OtaWrite.OtaEntry.EraseAhead | components/components/app_update/esp_ota_ops.c:192-206 | erases exactly the sectors from the write position to the end of the new data that were not erased before, nothing that this session programmed; the answer is determined by the partition |
| OtaWrite.OtaEntry.TopUp | components/components/app_update/esp_ota_ops.c:217-238 | the buffered block is completed with the front of the data and flushed when full |
| OtaWrite.OtaEntry.Write | components/components/app_update/esp_ota_ops.c:173-256 | the answer is exactly the verdict on the partition, the session, the image so far and the data; after a success exactly the whole blocks of the image so far are in flash, each byte programmed once, and the rest is buffered; a failing write loses nothing if the session erases on the fly, the flash is not encrypted, or the data fits the partition |
| OtaWrite.OtaEntry.ImageIsInFlash | components/components/app_update/esp_ota_ops.c:173-256 | every programmed byte within what the session erased reads back as the image |
| OtaWrite.Session | components/components/app_update/esp_ota_ops.c:173-256 | over any chunking every answer is the verdict, flash and buffer hold exactly the accepted chunks in order, and an image that fits a writable partition and starts with the magic byte is accepted completely |
| OtaWrite.AllAccepted | components/components/app_update/esp_ota_ops.c:173-256 | of such an image every chunk is accepted, however it is cut |
| OtaBoot.ActiveIsLargestValid | components/components/bootloader_support/src/bootloader_common_loader.c:33-119 | the active entry is one that was written completely and is not in state 3 or 4, with the largest sequence number, the first of two equals; there is none exactly if no entry is like that |
| OtaBoot.BootByFields | components/components/app_update/esp_ota_ops.c:503-540 | by the fields of the entries: the slot of the largest number that counts boots, and the default partition exactly if none counts |
| OtaBoot.SingleEntry | components/components/bootloader_support/src/bootloader_common_loader.c:38-46 | a single entry boots its slot, in either sector, exactly if its number is not all ones, its state is neither invalid nor aborted, and its CRC matches |
| OtaBoot.SlotOfSeq | components/components/app_update/esp_ota_ops.c:524-528 | a number congruent to s + 1 boots slot s if and only if it is not 0 or the slot count divides 2^32 |
| OtaBoot.NewEntryTakesOver | components/components/app_update/esp_ota_ops.c:418-427 | a new entry whose number is not below the active one becomes the active one, ties included, and decides what boots |
| OtaBoot.BrokenEntryIsIgnored | components/components/app_update/esp_ota_ops.c:363-377 | an erased or torn entry in the other sector changes neither the active entry nor the boot choice |
| OtaBoot.RollBack | components/components/bootloader_support/src/bootloader_common_loader.c:33-119 | a new entry that is marked invalid or aborted leaves the earlier choice and number in force; any other state keeps the new one |
| OtaBoot.SlotNotSelected | components/components/app_update/esp_ota_ops.c:418-427 | with three slots and number 0 in force, choosing slot 2 boots slot 0 |
| OtaBoot.AllOnesNotSelected | components/components/app_update/esp_ota_ops.c:418-427 | with three slots and number 2^32 - 2 in force, choosing slot 2 leaves slot 1 selected |
| OtaBoot.WrappedNotSelected | components/components/app_update/esp_ota_ops.c:418-427 | in the same state choosing slot 0 wraps around and arrives at the all-ones number |
| OtaBoot.AllOnesIsNoChange | components/components/bootloader_support/src/bootloader_common_loader.c:38-46 | an entry with number 2^32 - 1 is never valid; and when the next number is that or more, the slot was not the selected one |
| OtaBoot.NoNumberForSlot | components/components/app_update/esp_ota_ops.c:419-427 | when the next number does not fit 32 bits, no number at or above the active one stands for the slot, so a wrapped search never selects it |
| OtaBoot.SearchNeverEnds | components/components/app_update/esp_ota_ops.c:419-423 | when a common divisor of the slot count and 2^32 has no next number that fits 32 bits, no round ends the search |
| OtaBoot.SearchReaches | components/components/app_update/esp_ota_ops.c:419-423 | with an odd cofactor the wrapping search reaches every number of the slot's residue modulo that divisor |
| OtaBoot.SearchEndsForCount | components/components/app_update/esp_ota_ops.c:419-423 | the search ends if and only if the next number modulo the power-of-two part of the slot count fits 32 bits |
| OtaBoot.EndlessSearch | components/components/app_update/esp_ota_ops.c:419-423 | with twelve slots and number 2^32 - 2 in force, choosing slot 0 does not return |
| OtaBoot.NextOfIsNext | components/components/app_update/esp_ota_ops.c:405-416 | the next number in closed form: the least one at or above the active number that is congruent to s + 1 modulo the slot count |
| OtaBoot.BootSelector.NextSeq | components/components/app_update/esp_ota_ops.c:419-423 | the search, in unsigned 32-bit arithmetic, stops at the first number it reaches that is not below the active one; this is the next number whenever that fits 32 bits |
| OtaBoot.BootSelector.RewriteOtaSeq | components/components/app_update/esp_ota_ops.c:363-377 | only this sector changes, to the new entry; a cut leaves it erased or with what the cut write left |
| OtaBoot.BootSelector.SetBoot | components/components/app_update/esp_ota_ops.c:389-434 | if the search ends, setting slot s makes it boot, if and only if the state is none of the exceptions above; the number in force is then the one found, and the earlier choice is what a rollback leads to; an interrupted or refused change leaves the previous choice in force |
| OtaBoot.BootSelector.RollbackIsPossible | components/components/app_update/esp_ota_ops.c:685-737 | exactly if an entry is in force and what would boot without it has a sound image |
| OtaBoot.BootSelector.CurrentIsWorkable | components/components/app_update/esp_ota_ops.c:741-780 | confirming keeps the choice and its fallback; rolling back leads to the fallback, or is refused; a power cut during either loses the choice in force and leads to the fallback |
| OtaBoot.ChangeAndRollBack | components/components/app_update/esp_ota_ops.c:389-780 | a rollback undoes a change of the boot slot |
| OtaBoot.Run | components/components/app_update/esp_ota_ops.c:389-534 | over any sequence of changes and power cuts whose searches end, from any state, the number in force is the fold of the numbers found; while they stay small the last complete change decides, except that choosing the last slot keeps number 0 |
| SplitArgv.Step | components/components/console/split_argv.c:47-96 | one character does to the five-state parser what it does to the pure reading of the line |
| SplitArgv.Scan | components/components/console/split_argv.c:40-101 | the output never passes the input, and complete arguments lie one after the other in front of the current one |
| SplitArgv.Split | components/components/console/split_argv.c:33-112 | the in-place parse yields the first `argv_size` - 1 arguments of the original line as consecutive NUL-terminated strings, every pointer leads to its argument, and a NULL follows the last one |
| SplitArgv.ArgsAreNulFree | components/components/console/split_argv.c:33-112 | arguments consist of characters of the line, so no string ends early |
| SplitArgv.Escapes | components/components/console/split_argv.c:72-80 | in any argument a backslash keeps a following backslash, double quote or space, and drops any other character with itself |
| SplitArgv.PointersLeadToArgs | components/components/console/split_argv.c:103-110 | reading memory from a pointer up to the first NUL gives the argument |
| SplitArgv.SplitUndoesQuoting | components/components/console/esp_console.h:245-268 | any list of arguments, each written in any documented way with any spacing, splits into this list |
| SplitArgv.EveryListCanBeQuoted | components/components/console/esp_console.h:245-268 | every list of arguments has such a command line |
| SplitArgv.CommandLineIsNulFree | components/components/console/esp_console.h:245-268 | and the line of NUL-free arguments is NUL-free |
| SplitArgv.SplitCommandLine | components/components/console/split_argv.c:33-112 | a buffer that holds any such command line splits in place into the written arguments, all of them if they fit |
| Rtc.SplitProductIsExact | components/components/esp_hw_support/esp_clk.c:134-149 | for every 48-bit tick count and 32-bit calibration no step overflows, and the result is the whole part of ticks * cal / 2^19 |
| Rtc.AccurateStep | components/components/esp_hw_support/esp_clk.c:147-152 | one more read keeps the time at or below the exact time, behind it by less than one microsecond per read, and below 2^64 |
| Rtc.RetainedClock.constructor | components/components/esp_hw_support/esp_clk.c:55-76 | any memory content that fails its checksum, and any first power-up, is safe to start from |
| Rtc.RetainedClock.GetTimeUs | components/components/esp_hw_support/esp_clk.c:108-156 | the time grows by the calibrated ticks since the last read or restarts at a reset; it stays accurate over any number of reads and recalibrations, and never decreases between resets |
| Rtc.RetainedClock.CalSet | components/components/esp_hw_support/esp_clk.c:162-198 | accounts for the ticks so far at the old calibration before the new one applies |
| Rtc.RetainedClock.Restart | components/components/esp_hw_support/esp_clk.c:113-127 | after a restart the retained time is used exactly if there is a calibration and the checksum holds |
| Rtc.RunRetained | components/components/esp_hw_support/esp_clk.c:108-198 | over any run of reads, recalibrations and restarts every time is the one before plus its ticks at the calibration in force; it never decreases, except that a calibration of 0 makes the next time 0 |
| Rtc.TimesInOrder | components/components/esp_hw_support/esp_clk.c:108-198 | so without a calibration of 0 any later time is at or above any earlier one |
| Rtc.ZeroCalSetsTimeBack | components/components/esp_hw_support/esp_clk.c:113-156 | a run in which a calibration of 0 takes the time from one second back to 0 |
| Rtc.FixUpClock.GetTimeUs | components/components/esp_hw_support/esp_clk.c:113-160 | without retained memory: the time is calibrated ticks plus the fix-up, modulo 2^64 |
| Rtc.FixUpClock.CalSet | components/components/esp_hw_support/esp_clk.c:162-198 | the time at the moment of the change is the same before and after, if there was a calibration |
| Rtc.ExactTimeGrows | components/components/esp_hw_support/esp_clk.c:108-198 | the exact time grows by the calibrated ticks of each step, at the calibration in force, across changes of the calibration |
| Rtc.ExactTimesInOrder | components/components/esp_hw_support/esp_clk.c:108-198 | without a calibration of 0 the exact times never decrease |
| Rtc.RunFixUp | components/components/esp_hw_support/esp_clk.c:108-198 | over any run the times are the 64-bit values of the exact times; without a calibration of 0, and while the exact times fit 64 bits, they are these times and never decrease |
| Aht.CalcCrc | main/aht.c:60-78 | the nested loops compute the CRC register of the message |
| Aht.KnownCrcs | main/aht.c:60-78 | the CRC of two known messages, which fixes the initial value |
| Aht.RegisterIsLinear | main/aht.c:60-78 | the register is linear: two messages differ by what their flipped bits leave |
| Aht.SameCrc | main/aht.c:60-78 | two messages collide exactly if the flipped bits alone leave 0 |
| Aht.Residue | main/aht.c:60-78 | a message followed by a byte has residue 0 exactly if the byte is its CRC |
| Aht.ByteChangeIsDetected | main/aht.c:60-78 | any change of one byte changes the CRC |
| Aht.BurstIsDetected | main/aht.c:60-78 | any burst of at most eight bits, across byte boundaries too, changes the CRC |
| Aht.OddChangeIsDetected | main/aht.c:60-78 | any odd number of flipped bits changes the CRC |
| Aht.TwoBitChangeIsMissedExactly | main/aht.c:60-78 | two flipped bits in different bytes of a message of any length are missed if and only if their distance in bits is a multiple of 127 |
| Aht.TwoBitChangeIsDetected | main/aht.c:60-78 | so any two of them are detected in a message of up to fifteen bytes |
| Aht.PowerIsOneExactly | main/aht.c:60-78 | the register of a single bit comes back to it exactly after multiples of 127 steps |
| Aht.ChangedFrameIsRefused | main/aht.c:102 | a received frame that differs from a sent one in a detected way is not accepted |
| Aht.FieldsOfBytes | main/aht.c:104-117 | the five data bytes can be recovered from the two 20-bit values |
| Aht.BytesOfFields | main/aht.c:104-117 | every two 20-bit values come from five data bytes |
| Aht.MeasuresInRange | main/aht.c:110-117 | humidity is in [0, 100) and temperature in [-50, 150) |
| Aht.ScalesAreClose | main/aht.c:110-117 | the two factors are 100 / 2^20 and 200 / 2^20, to within a rounding far below the resolution |
| Aht.DecodeFields | main/aht.c:104-117 | the shifts and sums compute the two scaled fields |
| Aht.ReadMeasures | main/aht.c:98-121 | measures are delivered exactly for a ready sensor and a frame with a matching CRC, and are in range |
| Adc.FirstStepBound | components/components/esp_adc/adc_cali_curve_fitting.c:142-179 | the linear step is at most the ideal voltage and below it by less than 1 + raw / 65536 |
| Adc.FirstStepIsMonotone | components/components/esp_adc/adc_cali_curve_fitting.c:142 | a larger reading never gives a smaller voltage |
| Adc.GetReadingError | components/components/esp_adc/adc_cali_curve_fitting.c:181-216 | the loop computes the sum of the terms in the widths of the code, for every input; while nothing overflows it is the signed sum of the rounded terms; a reading of 0 gets no correction |
| Adc.Error32IsExact | components/components/esp_adc/adc_cali_curve_fitting.c:195-213 | while nothing overflows, the 64-bit powers and the 32-bit sum are those of the rounded polynomial |
| Adc.Conversions | components/components/esp_adc/adc_cali_curve_fitting.c:142-216 | the conversions to 64 and to 32 bits keep a value modulo the width of the type |
| Adc.SumIsClose | components/components/esp_adc/adc_cali_curve_fitting.c:195-213 | that sum differs from the exact polynomial by less than the number of terms |
| Adc.CurveFitting.CalcFirstStep | components/components/esp_adc/adc_cali_curve_fitting.c:174-179 | the context receives the reference voltage times 2^16 over the reading, rounded down, in 32 bits, and no offset |
| Adc.CurveFitting.CompensatedIsNearest | components/components/esp_adc/adc_cali_curve_fitting.c:133-140 | compensation moves the reading down by the channel's amount, clamped to the range of readings at both ends |
| Adc.CurveFitting.RawToVoltage | components/components/esp_adc/adc_cali_curve_fitting.c:127-148 | for every reading the voltage is the linear step, in unsigned 64-bit arithmetic, minus the correction, in 32 bits; while nothing overflows it lies within the sum of both rounding bounds of the ideal line minus the exact polynomial |
| Adc.VoltageBound | components/components/esp_adc/adc_cali_curve_fitting.c:127-216 | the two rounding bounds add up |
| Adc.FirstStepIs64Bit | components/components/esp_adc/adc_cali_curve_fitting.c:142 | for a reading that is not negative the 64-bit product does not wrap |
| Adc.TablesFitUpTo3531 | components/components/esp_adc/esp32s3/curve_fitting_coefficients.c:26-52 | no table of the ESP32-S3 overflows up to 3531 mV |
| Adc.ExactLimits | components/components/esp_adc/esp32s3/curve_fitting_coefficients.c:26-52 | the exact voltage up to which each of the eight tables is free of overflow |

## Left out

* Tasks pre-empted between getting a trace buffer and putting it: a write is one step, as the code's own notes about missing protection require.
* Timeouts are answers of the environment, not clock arithmetic; the host is assumed to leave at most a block less its two header bytes in a block.
* A build without a pending ring is the model with a pending ring of no more than one byte of storage.
* 32-bit overflow of indices in the ring and of `wrote_size` in an update, and block sizes above 32 KiB, are excluded by preconditions.
* Event.BaseNodeAddHandler: the registry's nodes are values held in a field of the loop object, not heap-allocated list cells, so aliasing and freeing of nodes are not captured; the same holds for the other members of `Event`.
* Legacy event registration without instances, handlers that register or unregister while an event is dispatched, profiling, and the event queue itself.
* Guards before the scheduler runs, the lazy creation of the mutex, the upper limit of the semaphore, and progress under fairness: `Guards.Progress` is about deadlock only.
* `esp_ota_end` and its padded last block, flash operations that fail for other reasons than the checks of the partition functions, the checks of the partition table in `esp_ota_begin`, lookup of an update by its handle, image verification, anti-rollback and secure boot.
* OtaWrite.OtaEntry.Write: a failing write of a session on encrypted flash that does not erase on the fly, and whose image does not fit the partition, can lose bytes; after it only what is in flash is claimed. Bytes beyond what such a session erased are programmed over whatever was there.
* OtaBoot.BootSelector.SetBoot: a change whose search does not end is excluded, because it does not return; the CRC-32 of an entry is any function, and a write that is cut short is assumed to leave no valid entry.
* OtaBoot.Run: runs with a search that does not end are excluded, as for a single change.
* The factory partition and the choice of the default boot partition; the model calls that choice `Default`.
* The checksum of the retained time is any function of what it covers; ticks of a counter that runs backwards are excluded.
* Bus transfers of the sensor and rounding of `float`: measures are reals.
* Adc.CurveFitting.RawToVoltage: eFuse reading and configuration checks are not part of the model; a signed 32-bit sum that overflows, which C leaves undefined, wraps around.
* Drivers, network code, peripherals and text-generation scripts of the repository.
