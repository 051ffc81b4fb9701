# nugpgpu: page tables, ring buffer and forcewake

A Dafny model of the three pieces of state the nugpgpu kernel driver manages for an Intel Haswell GPU, and proofs
about them, first separately and then together:

* **Objects and the graphics translation table.** Freshly allocated pages are coalesced into a scatter-gather table,
  walked again page by page, and written as 32-bit entries behind a bump allocator of GPU addresses
  (`Bits`, `Pte`, `Memmgr`, `Gtt`).
* **The render ring.** The CPU stores command dwords and moves TAIL, the GPU fetches them and moves HEAD
  (`RingSpec`, `RingFifo`, `RingTail`, `RingBooks`, `RingPackets`, `RingBuffer`, `RingMemory`, `RingWindow`,
  `RingSystem`).
* **Forcewake.** A reference count under a lock and one masked hardware register decide whether the core is awake
  when a register is read (`Forcewake`, `ForcewakeThreads`).
* **Set-up.** `nugpgpu_ringbuffer_render_init`, with the self-test at its end, ties the three together (`Effects`,
  `RingProgram`, `Setup`, `SelfTest`, `SetupThreads`).

Whatever the driver updates in place is a class here (`SgTable`, `GpuObject`, `GttDevice`, `Ring`, `Device`), and each
method is proved to compute a step of a pure specification (`Coalesce`, `Written`, `InsertAll`, `Step`, `Atomic`,
`SetupOps`). The lemmas are about runs of those specifications, and tie them to plain references: the documented layout
of an entry, register addresses and words as numbers, the kernel's and the hardware's answers field by field.

## Main results

1. **End to end** (`SelfTest.RenderInit`, `Setup.FifoThroughTheTable`, `SelfTest.TestThroughTheTable`). If set-up starts
   with an empty table that has room for it and succeeds, the CPU window at `mappable_base + PAGE_SIZE + t` and the GPU
   address `ring start + t` lead to the same byte, byte `t mod 4096` of the page `t / 4096` allocated for the ring,
   whatever runs the allocator formed and whatever is mapped later. From there on dwords stored through the one and
   fetched through the other arrive complete and in order, in every legal order of ring events and further insertions,
   if the ring's pages are distinct frames. The driver's own run, which maps one more page and then sends the self-test's
   nine dwords, is an instance. `RingWindow.WindowAgreesExactly` shows that, over distinct pages, window and ring start
   agree exactly when `gtt_entry` was 0.
2. **First in, first out** (`RingFifo.Fifo`, `RingFifo.Drain`) over every legal interleaving of packets, HEAD reads and
   GPU fetches, across any number of wraps and for every power-of-two ring from 128 bytes to 2 MiB.
3. **Allocation round trip** (`Memmgr.WalkRoundTrip`) with its exact condition, and uniqueness and minimality of the runs.
4. **Nothing mapped is ever lost** (`Gtt.MappedExactly`): over a sequence of insertions every address handed out keeps
   translating to its object's pages if and only if they all fit into the table, which the code never checks.
5. **Forcewake under concurrency** (`ForcewakeThreads.LockFree`, `ForcewakeThreads.AtTheAccess`): any number of threads,
   one raw register access per step, acknowledgements arriving when they like and waits that may give up.
   No interleaving deadlocks: whatever has been called can still be completed without any wait giving up
  (`ForcewakeThreads.EveryCallCompletes`). `SetupThreads.SetupAmongThreads` puts set-up's register accesses into such an interleaving, as the calls of one thread
   among any number of others.

## Where the code does not meet the property

Each of these is proved with its exact condition and an input that fails; the code is modelled as it is.

* *Expanding the scatter-gather table gives back the pages* exactly when no 2^20 of them are consecutive frames: a 4 GiB
  run has a stored length of zero (`Memmgr.WalkRoundTrip`, `Memmgr.WrappedRunVanishes`).
* *An entry holds the page address* exactly below 2^39, while the driver asks for a 40-bit DMA mask, which lets addresses
  through that lead 2^39 too low (`Pte.PteAddressExact`, `Pte.PteFibre`, `Pte.HighAddressAliased`).
* *Every insertion is mapped* exactly when it fits into the table (`Gtt.MappedExactly`, `Gtt.OnePageTooMany`).
* *`ring_space` is the gap less the reserve* except for a head 1 to 63 bytes ahead of the tail, where it is a whole ring
  too large. The driver copies HEAD only in set-up, so as it stands it never comes there
  (`RingPackets.SpaceWithoutHeadCopy`), and no legal run does; a caller that copies HEAD between two packets can
  (`RingFifo.RingSpaceExact`, `RingPackets.OverestimateReached`).
* *`tail + space` is conserved* exactly when the bytes reserved are the bytes emitted modulo the ring;
  `check_dword_temp` reserves eight dwords and emits nine (`RingBooks.ConservedExactly`, `RingBooks.ConservedAlways`,
  `RingBooks.NinthDword`).
* *The published tail reaches the hardware whole* exactly when an even number of dwords is out (`RingTail.QwordTail`,
  `RingBooks.NinthDword`).
* *A packet is visible to the GPU* exactly when an even number of dwords is out and those waiting do not fill the ring
  (`RingPackets.PacketVisibleExactly`, `RingPackets.FullRingLooksEmpty`).
* *The wake bit matches the count* exactly when callers keep their references balanced (`Forcewake.WakeExact`,
  `Forcewake.UnpairedPut`).
* *Two masked writes may be swapped* exactly when their bits are disjoint (`Forcewake.WritesCommute`,
  `Forcewake.LastWriteWins`).
* *Set-up leaves the reference count alone* unless the ring was programmed and does not start, when a reference stays
  taken (`SelfTest.InitAwake`, `SelfTest.StalledInit`).

## Assumptions

* `dma_map_sg` maps every page frame to its own physical address and does not merge entries; the code ignores the count
  it returns.
* The aperture at `mappable_base + x` goes through the table at GPU address `x`.
* A store beyond the mapped table or the mapped ring hits memory that is not part of the model.
* The window is write-combined and the code has no barrier before it writes TAIL: dwords emitted are taken to be in memory
  by the time TAIL announces them.
* The four registers of the message about a HEAD that does not clear are arguments of one call, whose order C leaves open;
  they are read in the order written.
* A page walk takes from each scatter-gather entry its length rounded up to whole pages and passes over empty ones; the
  kernel's iterator is not part of this model.
* The hardware reads TAIL in whole qwords, counts wraps in the HEAD bits above the offset, and changes of the lower half
  of a masked register only the bits named in the upper half.
* The acknowledgement of forcewake follows the wake bit, at any later time. A wait may also give up.
* Frames handed to the ring differ in the 39 bits an entry holds (only for delivery through memory), or all entries up to
  the end of the ring do (only for `RingWindow.WindowAgreesExactly`).
* A run is legal when packets are not nested and every dword emitted fits `ring_space` at that moment and the rest of the
  ring; what a packet reserves does not matter. The code checks none of this (`nugpgpu_ringbuffer.c:38`);
  `RingSpec.Allowed` spells it out. What holds of all runs, legal or not, is in `RingTail` and `RingBooks`.

Code and comments differ in four places, and the code is followed: the labels GGMS and GMS of the comments at
`nugpgpu_gtt.c:109` and `nugpgpu_gtt.c:116` are exchanged; `nugpgpu_drv.h:41` speaks of 2 GB of address space where the
size arithmetic gives up to 3 GiB; the layout comment at `nugpgpu_gtt.h:33` puts three cacheability bits at 2:0, the macro
and its own comment at 3:1; and `ring_space` takes a ring but reads the global one, so there is one ring here.

## Model

| member | source | states |
|---|---|---|
| Pte.EncodedFields | nugpgpu_gtt.h:36-45 | for a page address no two fields of the entry overlap: every `or` of the macros is an addition, including the truncation to 32 bits |
| Pte.DecodedFields | nugpgpu_gtt.h:29-35 | the fields of the documented layout as divisions of the entry word |
| Pte.CacheabilityRoundTrip | nugpgpu_gtt.h:43-45 | the macro puts each of the sixteen levels where the layout has it and touches neither address nor validity |
| Pte.PteRoundTrip | nugpgpu_gtt.c:14-25 | decoding by the documented layout gives back the low 39 address bits, the validity, and whether the level was non-zero |
| Pte.PteAddressExact | nugpgpu_gtt.c:14-25 | the address survives encoding if and only if it is page-aligned and below 2^39 |
| Pte.PteFibre | nugpgpu_gtt.c:14-25 | two page addresses share an entry if and only if they agree modulo 2^39 |
| Pte.HighAddressAliased | nugpgpu_gtt.c:99-103 | every page address from 2^39 up to 2^40, which the 40-bit DMA mask lets through, decodes to the page 2^39 below |
| Memmgr.CoalesceDescribes | nugpgpu_memmgr.c:38-59 | the runs expand to exactly the allocated pages in order, none empty, no neighbours mergeable, never more runs than pages |
| Memmgr.CoalesceUnique | nugpgpu_memmgr.c:50-58 | every split into non-empty runs without mergeable neighbours is the one the loop builds |
| Memmgr.CoalesceMinimal | nugpgpu_memmgr.c:50-58 | no split of the pages into non-empty runs has fewer of them |
| Memmgr.WalkRoundTrip | nugpgpu_memmgr.c:33-61 | walking the stored table page by page gives back the allocated pages if and only if no 2^20 of them are consecutive frames |
| Memmgr.WalkRoundTripSmall | nugpgpu_memmgr.c:33-61 | below 2^20 pages the walk always gives them back |
| Memmgr.WrappedRunVanishes | nugpgpu_memmgr.c:56 | 2^20 consecutive frames become one entry of length zero and the walk visits no page |
| Memmgr.SgTable.Open | nugpgpu_memmgr.c:51-54 | a new entry of one page is appended, within the table |
| Memmgr.SgTable.Lengthen | nugpgpu_memmgr.c:56 | only the entry's 32-bit length grows, by a page, wrapping |
| Memmgr.PlacePage | nugpgpu_memmgr.c:50-58 | one iteration turns a table of the runs so far into the table of the runs with the page added, at most one entry longer |
| Memmgr.FillTable | nugpgpu_memmgr.c:33-59 | the loop succeeds if and only if the kernel has `num` pages, and then the table stores the coalesced pages; the current entry never leaves a table of `num` entries |
| Memmgr.AllocateObject | nugpgpu_memmgr.c:5-77 | 0 if and only if header, table, at least one page, all pages and the DMA mapping are given, -28 if and only if only the mapping fails, -12 otherwise; on success a new table storing the coalesced pages, on failure the object untouched |
| Gtt.ProbedSizes | nugpgpu_gtt.c:109-124 | bits 9:8 give the translated space in GiB, bits 7:3 the stolen memory in 32 MiB units; at most 786432 entries and 3 GiB for every control word |
| Gtt.GttDevice.constructor | nugpgpu_gtt.c:118-137 | the table has one entry per page of the translated space, the allocator starts at entry 0 |
| Gtt.GttDevice.WriteRun | nugpgpu_gtt.c:183-192 | the pages of one run are encoded into consecutive entries as far as the table reaches, the rest of the table is unchanged, and the last address is remembered |
| Gtt.GttDevice.InsertEntries | nugpgpu_gtt.c:168-206 | entry + k encodes the k-th page of the walk for all k inside the table, all other entries are unchanged, the result is entry + page count in 32 bits, the read-back warns if and only if it is from beyond the table and finds something else, and then 1 is written to 0x101008 and read back |
| Gtt.GttDevice.Insert | nugpgpu_gtt.c:156-166 | the returned address is the old entry times the page size, truncated, the new state is one more list inserted, and register 0x101008 is written and read back |
| Gtt.EntriesSurvive | nugpgpu_gtt.c:156-166 | an entry below the allocation point is the same after any sequence of insertions |
| Gtt.InsertedEntry | nugpgpu_gtt.c:183-192 | entry base + k of an object encodes its k-th page, whatever is inserted before or after |
| Gtt.NeverTheErrorValue | nugpgpu_ringbuffer.c:104-107 | no returned address is the error value the callers look for, even where it is truncated: their error branches are dead |
| Gtt.BaseExact | nugpgpu_gtt.c:160 | within the table the address is not truncated |
| Gtt.RangesAdjoin | nugpgpu_gtt.c:156-166 | over any sequence of insertions the address ranges adjoin in order, are disjoint and stay in the translated space |
| Gtt.AllObjectsMapped | nugpgpu_gtt.c:156-206 | after any sequence of insertions every byte of every object is reached through the address returned for it |
| Gtt.MappedExactly | nugpgpu_gtt.c:156-206 | over any sequence of insertions every byte of every object is reached through the address returned for it if and only if all of them fit into the table |
| Gtt.AllCached | nugpgpu_gtt.c:18-24 | after any sequence of insertions with a cache level that fits the table, every entry inserted is valid and has cacheability 2 |
| Gtt.OnePageTooMany | nugpgpu_gtt.c:118-137 | control word 0x100 gives 262144 entries, and of one object a page larger not every byte is mapped |
| RingSpec.HeadOffsetIs | nugpgpu_ringbuffer.h:12 | the head mask keeps the dword offset below 2 MiB and drops the wrap count |
| RingSpec.TailOffsetIs | nugpgpu_ringbuffer.h:13 | the tail mask keeps whole qwords below 2 MiB |
| RingSpec.MaskedTailIs | nugpgpu_ringbuffer.c:59 | `tail & (size - 1)` is the remainder, for every power-of-two size |
| RingFifo.RingSpaceExact | nugpgpu_ringbuffer.c:63-69 | the result is the cyclic gap (an empty ring counts whole) less 64, plus a whole ring exactly for heads 1 to 63 ahead of the tail; HEAD bits outside the mask do not matter |
| RingFifo.SpaceCountsUnseen | nugpgpu_ringbuffer.c:63-69 | in every reachable state with the tail inside the ring it is the ring less the reserve less the bytes emitted since HEAD was read |
| RingFifo.StepKeeps | nugpgpu_ringbuffer.c:39-61 | every legal packet operation, HEAD read and GPU fetch keeps the ring invariant: registers at their counters' offsets, the 64-byte gap, unread dwords intact |
| RingFifo.RunKeeps | nugpgpu_ringbuffer.c:39-61 | so does every legal run |
| RingFifo.Fifo | nugpgpu_ringbuffer.c:39-61 | in every legal run the GPU has taken a prefix of the emitted dwords, all published, and no dword still to be taken is overwritten |
| RingFifo.Drain | nugpgpu_ringbuffer.c:39-61 | after every legal run the GPU, left to itself, takes everything published up to an odd last dword |
| RingTail.PublishedTail | nugpgpu_ringbuffer.c:56-61 | in every run, legal or not, the tail written to the hardware is the bytes emitted up to then modulo the ring size |
| RingTail.ClosedTailCounts | nugpgpu_ringbuffer.c:50-61 | in every run, whenever all that was emitted is published, the driver's tail and TAIL are both the bytes emitted modulo the ring |
| RingTail.QwordTail | nugpgpu_ringbuffer.c:59-60 | that tail keeps all its bits under the TAIL mask if and only if an even number of dwords is published |
| RingTail.PacketInBounds | nugpgpu_ringbuffer.c:50-54 | a packet's stores all land in the ring if and only if it does not cross the end; ending there is fine |
| RingTail.LegalInBounds | nugpgpu_ringbuffer.c:50-54 | every store of a legal run lands in the ring |
| RingBooks.ConservedAlways | nugpgpu_ringbuffer.c:44-61 | in every run and at every moment, inside packets too: `tail + space` is the ring less its reserve if and only if the bytes reserved are, modulo 2^32, the bytes published modulo the ring and those emitted since, and these do not exceed the int range |
| RingBooks.ConservedExactly | nugpgpu_ringbuffer.c:44-61 | in every run, legal or not, over any number of wraps: whenever all that was emitted is published, `tail + space` is the ring less the reserve if and only if the bytes reserved are, modulo 2^32, the bytes emitted modulo the ring |
| RingBooks.NinthDword | nugpgpu_tests.c:126-137 | reserving eight and emitting nine leaves the books four bytes off and announces eight dwords |
| RingBooks.TrustingSpace | nugpgpu_ringbuffer.c:39-61 | callers who only watch the `space` field and emit what they reserve make legal runs, stay in bounds, never need the mask, and never use more than one ring less the reserve |
| RingPackets.FullRingLooksEmpty | nugpgpu_ringbuffer.c:39-61 | a packet as large as the ring is accepted and leaves TAIL equal to HEAD, so the GPU takes nothing |
| RingPackets.PacketLegal | nugpgpu_ringbuffer.c:39-61 | a packet whose dwords fit the computed space and the rest of the ring is legal to its end, whatever it reserves |
| RingPackets.PacketDelivered | nugpgpu_ringbuffer.c:39-61 | behind any legal run such a packet reaches the GPU behind everything before it, up to an odd last dword, after which the GPU is idle; what it reserved makes no difference |
| RingPackets.PacketVisibleExactly | nugpgpu_ringbuffer.h:13-14 | behind any legal run and any packet the hardware sees all waiting dwords if and only if an even number is out and they are fewer than the ring has slots |
| RingPackets.SpaceWithoutHeadCopy | nugpgpu_ringbuffer.c:63-69 | in every run, legal or not, in which HEAD is not copied again after set-up, `ring_space` is the ring less tail and reserve whenever the tail is inside the ring |
| RingPackets.OverestimateReached | nugpgpu_ringbuffer.c:63-69 | for a caller that copies HEAD between two packets, which the driver does not: a run the code accepts, after which `ring_space` is the ring less 32 bytes where 32 bytes are free |
| RingBuffer.Ring.BeginPacket | nugpgpu_ringbuffer.c:39-48 | the Begin step: only `space` changes, by the reserved bytes as a 32-bit int, and the result is 0 |
| RingBuffer.Ring.EmitDword | nugpgpu_ringbuffer.c:50-54 | the Emit step: the dword is stored at the tail, unless that is beyond the mapped ring, and the tail moves by four |
| RingBuffer.Ring.AdvanceTail | nugpgpu_ringbuffer.c:56-61 | the Advance step: the tail is masked and written to register 0x2030 through the locked accessor |
| RingBuffer.Ring.SpaceLeft | nugpgpu_ringbuffer.c:63-69 | computes RingSpace without changing the ring |
| RingBuffer.Ring.RefreshHead | nugpgpu_ringbuffer.c:208 | the ReadHead step: the driver's head becomes what the accessor reads from register 0x2034 |
| RingBuffer.Ring.Dispatch | nugpgpu_ringbuffer.c:71-82 | exactly one packet of opcode 0x31 and the offset, one write of the tail to register 0x2030, and 0 |
| RingBuffer.AnnouncedTail | nugpgpu_ringbuffer.c:56-61 | in every run, legal or not, the word an advance leaves in register 0x2030 is the bytes emitted modulo the ring |
| Forcewake.MaskedBits | nugpgpu_regrw.h:27-28 | enabling sets and disabling clears exactly the named bits |
| Forcewake.WritesCommute | nugpgpu_regrw.h:27-28 | disabling a and enabling b may be swapped if and only if a and b are disjoint |
| Forcewake.LastWriteWins | nugpgpu_regrw.h:27-28 | disabling and enabling the same bits leaves them as the last write has it |
| Forcewake.CombinedWrite | nugpgpu_ringbuffer.c:218-219 | one word made of a disable and an enable does what the two writes do in that order |
| Forcewake.ReadRestores | nugpgpu_regrw.c:14-143 | a read leaves count and wake register as they were; without a reference it writes 0x10001 before and 0x10000 after for every register below 0x40000 but 0xA18C, and nothing for any other; with a reference it writes nothing |
| Forcewake.ReferenceWrites | nugpgpu_regrw.c:41-125 | the first reference writes 0x10001, dropping the last one 0x10000, and no other get, put or work writes anything |
| Forcewake.WriteExact | nugpgpu_regrw.c:145-157 | an accessor write reaches its register only, and changes the wake bits only at 0xA188 |
| Forcewake.GetPutRestores | nugpgpu_regrw.c:57-83 | taking and dropping a reference leaves count and wake register as they were |
| Forcewake.OneOp | nugpgpu_regrw.c:41-157 | one operation keeps the bit matching the count if and only if the new balance is a 32-bit count |
| Forcewake.BalancedRun | nugpgpu_regrw.c:41-157 | after every balanced run from the sanitised state the bit is set exactly while references are held, the count is gets less drops, and every read of a register below 0x40000 but 0xA18C found the core awake |
| Forcewake.WakeExact | nugpgpu_regrw.c:41-157 | the bit matches the count at every point of a run if and only if no reference is dropped that was not taken and fewer than 2^32 are held |
| Forcewake.UnpairedPut | nugpgpu_regrw.c:71-83 | a reference dropped but never taken leaves a count of 2^32 - 1 with the core asleep |
| Forcewake.Device.constructor | nugpgpu_regrw.c:194-215 | the early sanitize clears every wake bit whatever the firmware left, with no reference held |
| Forcewake.Device.ForcewakeOn | nugpgpu_regrw.c:85-108 | the wake bit is enabled if forced or needed, otherwise nothing happens |
| Forcewake.Device.ForcewakeOff | nugpgpu_regrw.c:110-125 | the wake bit is disabled if forced or needed, otherwise nothing happens |
| Forcewake.Device.ForcewakeGet | nugpgpu_regrw.c:57-69 | the atomic Get: the count grows and the first reference wakes the core |
| Forcewake.Device.ForcewakePut | nugpgpu_regrw.c:71-83 | the atomic Put: the count shrinks and the last reference lets the core sleep |
| Forcewake.Device.ForcewakeWork | nugpgpu_regrw.c:41-49 | the same as deferred work |
| Forcewake.Device.GpuRead | nugpgpu_regrw.c:127-143 | the atomic Read: the raw access between waking and sleeping where no reference is held and the register needs it |
| Forcewake.Device.GpuWrite | nugpgpu_regrw.c:145-157 | the atomic Write: no forcewake, and only a write to the wake register changes it |
| ForcewakeThreads.InsideRefines | nugpgpu_regrw.c:41-157 | a raw step inside a locked section does not change the section's outcome |
| ForcewakeThreads.InterleavingKeeps | nugpgpu_regrw.c:41-157 | every interleaving of threads, raw steps, acknowledgements and time-outs keeps the invariant: exclusion, accounts, refinement of the atomic operations |
| ForcewakeThreads.LockFree | nugpgpu_regrw.c:41-157 | whenever the lock is free the state is that of the atomic operations in lock order, the bit matches the count, the count is gets less drops, and every read of a register below 0x40000 but 0xA18C was awake |
| ForcewakeThreads.AtTheAccess | nugpgpu_regrw.c:85-143 | at the raw read of a register below 0x40000 but 0xA18C the bit is set, and acknowledged unless a wait gave up; waking never starts with the bit already set |
| ForcewakeThreads.HolderFinishes | nugpgpu_regrw.c:41-157 | a held lock can always be freed by acknowledgements and steps of its holder, no wait giving up and nobody else moving |
| ForcewakeThreads.EveryCallCompletes | nugpgpu_regrw.c:41-157 | after every interleaving, whatever a thread has called can still be completed without any wait giving up |
| RingMemory.RunSeen | nugpgpu_ringbuffer.c:50-54 | a run in physical memory, stored through the window and fetched through the ring start, is a run of the ring machine, if the two ways agree and slots are apart |
| RingWindow.RingBytes | nugpgpu_ringbuffer.c:141 | from an empty table, ring offset t through window and ring start is byte t mod 4096 of ring page t / 4096, whatever is mapped later |
| RingWindow.WindowAgreesExactly | nugpgpu_ringbuffer.c:141 | with distinct pages up to the end of the ring, window and ring start agree on all offsets if and only if the ring was set up first, whatever is mapped later |
| RingWindow.WindowSlotsApart | nugpgpu_ringbuffer.c:141 | over distinct frames different ring slots are different memory, through either way |
| RingSystem.MappingKeeps | nugpgpu_gtt.c:156-206 | a further insertion leaves both ways into the ring, and what is seen through them, as they were |
| RingSystem.SystemSeen | nugpgpu_ringbuffer.c:39-61 | every legal order of ring events and further insertions, through the growing table, is a run of the ring machine |
| RingSystem.FifoInSystem | nugpgpu_ringbuffer.c:39-61 | in every such order what the GPU has loaded is a published prefix of what the driver stored, and left to itself it loads all that is published up to an odd last dword |
| RingProgram.CtlRoundTrip | nugpgpu_ringbuffer.c:196-198 | the control word is valid, and its length field gives the size back if and only if that is 1 to 512 whole pages |
| RingProgram.WaitForStart | nugpgpu_drv.h:96-112 | the wait succeeds if and only if some evaluation finds the valid bit set, START at the ring and HEAD at offset zero |
| RingProgram.WaitExact | nugpgpu_drv.h:96-112 | the wait makes every evaluation up to the first that succeeds, or all of them, and nothing more |
| RingProgram.LaunchRing | nugpgpu_ringbuffer.c:194-206 | START gets the ring address before CTL gets the control word, and then the wait |
| RingProgram.ReadBack | nugpgpu_ringbuffer.c:208-210 | head, tail and space of a started ring are those of a fresh ring |
| RingProgram.StartRing | nugpgpu_ringbuffer.c:149-220 | whatever the hardware answers: every word written, in order, and what the registers hold in the end: the status address, the ring start, a valid control word with the ring's length, HEAD and TAIL zero; the reference is dropped, and the modes set, if and only if the ring is seen running |
| RingProgram.ProgramEffects | nugpgpu_ringbuffer.c:149-220 | the programming writes exactly the listed words to the listed registers in that order, CTL cleared before START is set and enabled after it, between the get and the put |
| RingProgram.ModeAfter | nugpgpu_ringbuffer.c:218-219 | the mode register ends with bit 11 set, bit 13 clear and all others as before |
| RingProgram.ProgramBalanced | nugpgpu_ringbuffer.c:149-220 | programming keeps a balanced run balanced; the balance grows by one if and only if the ring does not start |
| RingProgram.ProgramAwake | nugpgpu_ringbuffer.c:149-220 | every read of the programming of a register below 0x40000 but 0xA18C finds the core awake, whatever the hardware answers |
| Setup.AllocateAndMap | nugpgpu_ringbuffer.c:96-107 | the status of the allocation, and on success the pages in allocation order mapped at the returned address, which is never the error value |
| Setup.MapStatusPage | nugpgpu_ringbuffer.c:95-117 | one page mapped and its address kept; success if and only if allocation and kernel mapping succeed |
| Setup.MapRing | nugpgpu_ringbuffer.c:119-145 | 32 pages mapped, their address kept, the window one page into the aperture |
| Setup.MapObjects | nugpgpu_ringbuffer.c:92-147 | status page, then ring: what is mapped for every combination of failures, and both addresses |
| Setup.MappedServed | nugpgpu_ringbuffer.c:95-131 | behind any entry with room for them: the GPU reaches every byte of the status page and of the ring at their addresses, and all entries are valid and cached |
| Setup.StatusMeans | nugpgpu_ringbuffer.c:96-206 | 1 if and only if an allocation or a mapping fails, 0 if and only if none does and some evaluation sees the ring running at its address, -5 otherwise |
| Setup.SetUpRing | nugpgpu_ringbuffer.c:84-220 | for every outcome the result in terms of what kernel and hardware answer, the table, and every register access in order; on success a fresh ring programmed with its address and size, its pages served, and from an empty table one that is wired to its pages and delivers in order |
| Setup.FirstSetUpServes | nugpgpu_ringbuffer.c:95-145 | mapped into an empty table, window and ring start lead to the same byte of the allocated pages for every offset, and over distinct frames the ring delivers in order |
| Setup.FifoThroughTheTable | nugpgpu_ringbuffer.c:50-61 | a fresh ring wired to distinct frames delivers in order, whatever memory holds, for every legal order of ring events and further insertions |
| Setup.SetupBalanced | nugpgpu_ringbuffer.c:84-220 | set-up keeps a balanced run balanced; the balance grows by one if and only if the ring was programmed and did not start |
| SelfTest.TestDelivered | nugpgpu_tests.c:126-137 | on a fresh ring the self-test's packet is legal although it emits more than it reserves; the GPU takes the first eight of its nine dwords, by opcode a batch start at the page and a store of 0xDEADBEEF at dword 0x30, and is idle |
| SelfTest.CheckDwordTemp | nugpgpu_tests.c:75-165 | one more page mapped, exactly the self-test's packet sent with that page's address, and the registers dumped before and after; nothing is sent if there is no page |
| SelfTest.InitEffects | nugpgpu_ringbuffer.c:84-226 | all of set-up, for every outcome, takes and drops its reference and writes its words exactly as listed, register by register |
| SelfTest.FlushPerObject | nugpgpu_gtt.c:200-202 | over all of set-up register 0x101008 is written once for every object mapped |
| SelfTest.TailRegister | nugpgpu_tests.c:126-137 | after a set-up that succeeds register 0x2030 holds 36 if the self-test had its page and 0 otherwise |
| SelfTest.FieldsAfterTest | nugpgpu_tests.c:126-137 | the self-test takes 32 bytes off the space and moves the tail by 36 |
| SelfTest.TestThroughTheTable | nugpgpu_tests.c:97-137 | from the table and ring that set-up leaves, whatever memory holds: the page is mapped, the packet stored through the window, and the GPU loads exactly its first eight dwords through the ring start and is idle |
| SelfTest.RenderInit | nugpgpu_ringbuffer.c:84-226 | for every outcome the result in terms of what kernel and hardware answer, the table, every register access and every word written; on success the ring's fields as the self-test leaves them, all three objects served and cached as far as the table has room, and from an empty table window and ring start still at the same bytes |
| SelfTest.InitAwake | nugpgpu_ringbuffer.c:84-226 | over all of set-up every read of a register below 0x40000 but 0xA18C finds the core awake; count and wake bit end as they began unless the ring was programmed and did not start, which leaves one reference and the core awake |
| SelfTest.StalledInit | nugpgpu_ringbuffer.c:201-206 | a kernel and hardware for which set-up returns -EIO with a reference taken and the core awake |
| SetupThreads.CallsInOrder | nugpgpu_regrw.c:41-157 | in every interleaving a thread's operations take the lock in the order of its calls |
| SetupThreads.CountByThread | nugpgpu_regrw.c:41-157 | whenever the lock is free the count is what one thread holds plus what all others hold, and the wake bit matches it |
| SetupThreads.SetupAmongThreads | nugpgpu_ringbuffer.c:84-226 | set-up as the calls of one thread, all other threads free to act between any two raw steps: it adds one reference if the ring was programmed and did not start and none otherwise, and every read of a register below 0x40000 but 0xA18C found the core awake |

## Left out

- Gtt.GttDevice.InsertEntries: objects of 2^32 pages or more, whose page counter would wrap; the allocator's page number has 32 bits.
- Setup.AllocateAndMap: objects of 2^20 pages or more; its callers ask for 1 and 32. WalkRoundTrip says what can happen beyond.
- SelfTest.RenderInit: how long a wait takes; the evaluations of its condition are a parameter.
- Setup.MapStatusPage: the zeroing of the status page; nothing modelled reads it.
- SelfTest.CheckDwordTemp: its busy wait, and what it stores into and prints of the temporary and status pages; check_dword_hws, which nothing calls.
- Memmgr.AllocateObject: a table for zero pages counts as a failed table allocation, as in the kernel; memory the error paths do not release is not tracked.
- Forcewake.Device.constructor: the writes of the early sanitize to FPGA_DBG and FORCEWAKE; only the masked wake register is modelled.
- Forcewake.Device.ForcewakeOn: the waits for the acknowledgement, which are steps of their own in ForcewakeThreads, the wait for the GT threads and the read of ECOBUS, which change nothing modelled.
- Forcewake.Device.ForcewakeOff: the read of ECOBUS and the clearing of a FIFO error.
- Forcewake.Device.GpuRead: what a register holds is the hardware's, and a parameter.
- Forcewake.Device.GpuWrite: the unclaimed-register checks around a write.
- RingBuffer.Ring.AdvanceTail: accessor writes take no forcewake in the code, so nothing is claimed about whether the core is awake for TAIL.
- ForcewakeThreads.LockFree: callers are taken to drop only references that are held; WakeExact says what happens otherwise.
- RingFifo.Drain: an odd last dword stays hidden until the next packet, as the TAIL mask has it.
- PCI probing, mapping of the register file and of the table, the scratch page and the DMA mask: kernel calls.
- Commands are opaque dwords; what the GPU does with them is not modelled.
- Character device, ioctls, execbuffer stubs, file dumps and logging: plumbing without state.
- `nugpgpu_ring_render_stop`: nothing calls it.
