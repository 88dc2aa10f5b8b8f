# A verified model of the ASE host-side protocol code

The simulation environment emulates a PCIe host for FPGA designs. This project models the state
machines of its host side and proves what they keep over every run, every bus width and every
random choice. Random numbers are an arbitrary oracle; the operating system's answers (short
reads, mappings, page sizes, failures of allocation) are arbitrary too.

- **Read completions.** `ByteEnables`, `ReadCompletion` and `ReadEngine` specify how a DMA read
  is accepted, its response cut into completions of random length, reordered and sent as beats.
  `ReadDelivery*` state and prove the invariant and the theorems over runs. `CompletionList` and
  `ReadChannel` are the code itself, a doubly linked heap list and a class whose fields are
  updated in place, proved to take exactly the specification's steps; `ReadChannelRuns` feeds it
  events, so that the theorems hold of what the code does and of what the AFU sees.
  `ReadRequests` traces every response and packet back to the request header that arrived. The
  rules followed are those of section 2.3.1.1 of the PCI Express Base Specification.
- **The host-to-AFU bus.** `HostStream*` add MMIO requests and messages to the same bus, with the
  collector that puts packets together again, `HostStreamProgress` says when a cycle sends what, and
  `HostSender` is the sending and collecting code.
- **The simulated IOMMU.** `PageTableSpec`, `PageTableSteps`, `PageTableDelete` and `PageTableMap`
  say when the words of a four-level table are well formed and which finite map of disjoint pages
  they stand for; the class in `PageTable` is the walking, pinning and unpinning code, and carries
  out whole runs of operations. `HostMemory` is the code that builds the mapping of PCIe ATS on it;
  `Translation` says what its records mean, over `PhysicalMap` and `AddressBits`, and
  `TranslationHistory` what they owe to the translations and invalidations so far, and which changes
  of the system's mapping they survive.
- **The MMIO scoreboard.** `MmioProtocol` interleaves application threads, the response watcher
  and the simulator, one access to shared memory per step; `MmioInvariant` and `MmioProof` show
  who owns each slot, `MmioTheorems` what follows, `MmioWrites` what the AFU is sent for the calls,
  and `MmioSlots` how the slots can run out.
- **ATS invalidation.** `AtsTags` is the tag table (sections 10.3.1 and 10.3.2 of the same
  specification); `AtsRange` covers ranges with chunks and encodes them (section 10.2.3.2).
- **Around them.** `TlpHeader` packs and unpacks headers, `MessageQueue` frames messages over a byte
  pipe, `ByteWrite` carries out writes with byte enables, `WorkspaceTable` is the chained hash table
  of workspace IDs and `InterruptQueue` the list of interrupts waiting for their response.

## What the proofs found

In these places the code does not do what is asked of it everywhere. Each is stated with the exact
condition, not assumed away.

- Unpinning a page inside a pinned larger page is meant to fail with -1. The walk tests the node it
  stands on instead of the entry it read (line 859 of `ase_host_memory.c`), so that it goes on
  through the larger page's entry. `PageTable.PageTable.UnpinPage` has the outcome Fault exactly
  then; `HostMemory.UnpinInside` is the witness.
- A 4KB entry keeps its flag bit when its count drops to 0. Unpinning it again fails an assertion
  instead of returning -1: exactly the outcome Assertion of `UnpinPage`, with `HostMemory.SecondUnpin`
  as witness. Invalidation runs into it exactly when the range reaches, before its first unmapped
  address, a 4KB page that was translated once, invalidated since, and not translated again
  (`HostMemory.PaTable.InvalVaRange`, with `HostMemory.InvalidateTwice` as witness).
- Invalidation of a range stops at the first unmapped address. What it drops is exactly
  `Translation.Without`, the pages that it reaches (`Translation.Hit`); a page behind a hole stays
  recorded, and the records are wrong once it is unmapped (`HostMemory.InvalidateAcrossHole`). The
  records survive a change of the mapping if and only if it leaves all recorded pages alone
  (`TranslationHistory.TracksAfterChange`).
- Translation requests may name any 4KB boundary, and that address is what a huge page's record
  keeps. The reverse translation of the page is then right exactly if the address was in its first 4KB
  (`Translation.RoundTrip`, `Translation.MisalignedRecord`). Counts, invalidation and the absence of
  other assertions do not depend on it.
- Rounding a range up to its chunk size can pass the top of the 64-bit space. The end then wraps to
  the bottom and nothing is sent at all (`AtsRange.CoverRange`, with `AtsRange.WrappedRange` as
  instance).
- A call that has waited until fewer than 64 slots are in use can still find none and end the run:
  the count looks at the first flag of a slot, the search at both, and a reader clears them one after
  the other. The search passes over an unused slot exactly while its reader is between the two clears
  (`MmioSlots.SecondFlag`), it fails only if it has passed over one that is still unused
  (`MmioSlots.NoSlotOnlyPastClearing`), and `MmioSlots.OutOfSlots` is a run that ends so.
- The length word of a message is read in one call, and what a short read returns is dropped: the
  receiver has lost its place if the word was not whole in the pipe (`MessageQueue.Inlet.Receive`,
  outcome Torn).
- The encoding of address 0 is the invalid payload 0. A range of more than one page
  that starts below its own chunk size has its first chunk at 0, and the device is not told to
  invalidate it (`AtsRange.InvalidationCovers`, with `AtsRange.LowRangeMissed` as instance).

Documentation that disagrees with the code: the header layout puts slot_num at bits 23 to 19 of
DWORD 5, the code shifts it by 15; the message for translation requests says multiple of 8, the code
tests only bit 0 of the length. The model follows the code.

## Assumptions

- Configuration: the completion boundary is a positive multiple of 4 not above the maximum read
  size, read sizes fit 16 bits, the bus is at least as wide as a header (`ReadCompletion.ValidConfig`).
- The memory model answers each outstanding read once, with a full buffer. Response buffers are
  named by handles that are never used again.
- An error that kills the simulation ends the run.
- Page sizes do not change during an operation, though they may from one operation to the next. They
  are 4KB, 2MB or 1GB, the same over a whole page, and mapped addresses have 48 bits
  (`Translation.Consistent`).
- MMIO: writes name an emulated AFU port (a write to any other is never acknowledged and its slot
  stays taken), the simulator accepts all 64 slots, the AFU answers each read once, and fewer than
  512 requests are issued while any one is outstanding. Memory accesses are sequentially consistent.

## Model

| member | source | states |
|---|---|---|
| ReadDeliveryTheorems.EndToEndDelivery | ase/sw/pcie_ss_tlp/pcie_ss_tlp_stream.c:980-1609 | In every run, for every bus width, read, random choice and stall, the payload kept from the beats of a response is a prefix of it; it is the whole response exactly when none of its completions is pending. |
| ReadDeliveryTheorems.Drains | ase/sw/pcie_ss_tlp/pcie_ss_tlp_stream.c:1448-1609 | Nothing else arriving, refused cycles only delay: once as many cycles as beats and header starts are owed were not refused, whatever refused ones lie between, the list is empty and every response so far is delivered whole. |
| ReadDeliveryTheorems.BeatProgress | ase/sw/pcie_ss_tlp/pcie_ss_tlp_stream.c:1448-1609 | Each cycle that is not refused strictly lowers the number of beats and header starts owed. |
| ReadDeliveryTheorems.PacketsOnTheBus | ase/sw/pcie_ss_tlp/pcie_ss_tlp_stream.c:1448-1575 | In every run a packet's beats are never interrupted by another packet's, each header gives the recorded request's tag, the enabled bytes not yet delivered, the address of the data that follows and whether the packet is the last, and each packet delivers as many bytes as its header says. |
| ReadRequests.Transactions | ase/sw/pcie_ss_tlp/pcie_ss_tlp_stream.c:579-1609 | In every run each response answers a request event of its own, holds the data of the memory model's answer to it, with the length of the header that arrived (half for a compare-and-swap), and each packet of it has that header's tag and kind, the address counted on from that header's, the enabled bytes left of it, and is final exactly when it completes it. |
| ReadRequests.AcceptedExactly | ase/sw/pcie_ss_tlp/pcie_ss_tlp_stream.c:579-747 | The requests that pass the arrival checks, written out over the fields of the header: length, byte enables, tag, address format, translation requests and atomics. |
| ReadRequests.SendsExactly | ase/sw/pcie_ss_tlp/pcie_ss_tlp_stream.c:1448-1575 | In every run a cycle sends a beat exactly when a completion is pending, its draw is at most 208, and a packet that would start has waited 250 cycles since its request arrived, unless bandwidth is unlimited. |
| ReadRequests.InOrder | ase/sw/pcie_ss_tlp/pcie_ss_tlp_stream.c:920-977 | With ordered completions no response is overtaken: in every run the bus serves the responses one after the other, in the order in which the memory model gave them. |
| ReadDeliveryTheorems.NeverFaults | ase/sw/pcie_ss_tlp/pcie_ss_tlp_stream.c:980-1609 | In every reachable state the sender and the receiver find their buffers, read states and counts, and whole DWORDs of every pending completion lie inside its buffer: neither can run into an assertion or past a buffer. |
| ReadDeliveryTheorems.MapperRefusesOnlyWhenFull | ase/sw/pcie_ss_tlp/pcie_ss_tlp_stream.c:720-747 | With tag mapping a request is refused exactly when every read state is busy, and the index it gets was idle. |
| ReadDeliveryTheorems.FreeAndBusyPartition | ase/sw/pcie_ss_tlp/pcie_ss_tlp_stream.c:720-747 | In every run the free list is duplicate-free and properly linked, and holds exactly the indices that are not busy. |
| ReadDeliveryTheorems.ReturnedOnce | ase/sw/pcie_ss_tlp/pcie_ss_tlp_stream.c:1526-1539 | A read state turns idle at a step if and only if that step starts the last completion of its request. |
| ReadDeliveryTheorems.ReachableInv | ase/sw/pcie_ss_tlp/pcie_ss_tlp_stream.c:579-1609 | The invariant of list, counters, buffers, tags and free list holds in every state of every run. |
| ReadDeliveryProof.AllocKeepsChain | ase/sw/pcie_ss_tlp/pcie_ss_tlp_stream.c:720-741 | Taking the first free index keeps the list threaded through start_cycle linked and duplicate-free. |
| ReadDeliveryProof.ReleaseKeepsChain | ase/sw/pcie_ss_tlp/pcie_ss_tlp_stream.c:1526-1539 | Giving back a busy index keeps the list linked and duplicate-free with that index in front. |
| ReadCompletion.SplitTiles | ase/sw/pcie_ss_tlp/pcie_ss_tlp_stream.c:1021-1078 | Whatever the random lengths, the completions cut from a response tile the request without gap or overlap, one is first and one last, each counts the enabled bytes from it on, and the remaining count ends at 0. |
| ReadCompletion.RandomLengthBounds | ase/sw/pcie_ss_tlp/pcie_ss_tlp_stream.c:879-914 | A random length is positive and at most what remains; unless it takes all of it, it ends on the completion boundary. |
| ReadCompletion.LaterShares | ase/sw/pcie_ss_tlp/pcie_ss_tlp_stream.c:920-938 | Of 256 draws 129 let a new completion overtake none, 15 one, 16 two and 96 five. |
| ReadCompletion.EveryLength | ase/sw/pcie_ss_tlp/pcie_ss_tlp_stream.c:879-914 | Unless completions are ordered, every whole number of completion boundaries up to the largest read is drawn by some random number. |
| ReadCompletion.CountStep | ase/sw/pcie_ss_tlp/pcie_ss_tlp_stream.c:1021-1074 | The byte count of a piece plus the count of what follows it is the count before it. |
| ReadCompletion.PushKeepsOrder | ase/sw/pcie_ss_tlp/pcie_ss_tlp_stream.c:920-977 | Pushing a completion keeps the order of every request's completions, adds it last among its own, keeps the head of a non-empty list and adds exactly one element, which overtakes at most the number drawn and none of its own request. |
| ReadEngine.CheckedIsLegal | ase/sw/pcie_ss_tlp/pcie_ss_tlp_stream.c:579-718 | Every request that passes the arrival checks has a length and byte enables the splitter can count. |
| ReadEngine.BeatDelivers | ase/sw/pcie_ss_tlp/pcie_ss_tlp_stream.c:1541-1584 | The bytes that the keep flags of a beat select are exactly the response's bytes of that stretch, the cut-off tail of a last DWORD excluded. |
| ReadDeliveryProof.SendDelivery | ase/sw/pcie_ss_tlp/pcie_ss_tlp_stream.c:1448-1609 | One beat extends what has been delivered of its own response by its bytes and leaves every other response alone. |
| ByteEnables.ByteCount | ase/sw/pcie_ss_tlp/pcie_ss_tlp_stream.c:95-147 | The counting loops end with the span from the first to the last enabled byte, 1 for a zero-length read, and reject exactly the combinations that end the simulation. |
| ByteEnables.EnabledSpan | ase/sw/pcie_ss_tlp/pcie_ss_tlp_stream.c:95-147 | First and last byte are enabled and no enabled byte lies outside them. |
| ByteEnables.LowerAddrByteOffset | ase/sw/pcie_ss_tlp/pcie_ss_tlp_stream.c:75-87 | The number of disabled bytes before the first enabled one. |
| CompletionList.CplList.PushNew | ase/sw/pcie_ss_tlp/pcie_ss_tlp_stream.c:920-977 | On the heap: the list stays a well-formed doubly linked list, its contents are those of the specification's push, and exactly the new node joins. |
| CompletionList.CplList.WalkFromTail | ase/sw/pcie_ss_tlp/pcie_ss_tlp_stream.c:940-953 | The walk back from the tail ends at the insertion point of the specification, or at none for an empty list. |
| CompletionList.CplList.Pop | ase/sw/pcie_ss_tlp/pcie_ss_tlp_stream.c:1586-1606 | On the heap: the head leaves, the rest stays a well-formed list in order. |
| ReadChannel.ReadChannel.ReceiveReadRequest | ase/sw/pcie_ss_tlp/pcie_ss_tlp_stream.c:579-747 | The code that records a read or refuses it changes the state exactly as the engine's specification says. |
| ReadChannel.ReadChannel.CheckRequest | ase/sw/pcie_ss_tlp/pcie_ss_tlp_stream.c:579-718 | The checks on an arriving request, in their order, accept and adjust exactly what the specification does. |
| ReadChannel.ReadChannel.ReceiveResponse | ase/sw/pcie_ss_tlp/pcie_ss_tlp_stream.c:1001-1078 | The code that receives a response changes list, buffers and draws exactly as the specification's splitting does. |
| ReadChannel.ReadChannel.SplitResponse | ase/sw/pcie_ss_tlp/pcie_ss_tlp_stream.c:1021-1074 | The splitting loop computes the specification's split, pushing each piece on the heap list. |
| ReadChannel.ReadChannel.RandomCplLength | ase/sw/pcie_ss_tlp/pcie_ss_tlp_stream.c:879-914 | The random length and the draws used are those of the specification. |
| ReadChannel.ReadChannel.SendCompletion | ase/sw/pcie_ss_tlp/pcie_ss_tlp_stream.c:1448-1609 | The sender's new state, its flags and the payload and keep bytes on the bus are those of the specification's step. |
| ReadChannel.ReadChannel.constructor | ase/sw/pcie_ss_tlp/pcie_ss_tlp_stream.c:1660-1672 | The initial state threads all read states into the free list. |
| ReadChannelRuns.RunEvents | ase/sw/pcie_ss_tlp/pcie_ss_tlp_stream.c:579-1609 | Feeding the code any requests, answers and cycles, until one is not possible, is a run of the engine: the code is in the state of the run, and the beats read from the bus are those of its log. |
| HostStreamTheorems.PacketsStayWhole | ase/sw/pcie_ss_tlp/pcie_ss_tlp_stream.c:1694-1755 | In every run the state is CPL or MWR exactly when that sender has DWORDs left, and every beat that does not start a packet continues the one before it. |
| HostStreamTheorems.MmioDelivered | ase/sw/pcie_ss_tlp/pcie_ss_tlp_stream.c:1318-1442 | In every run a receiver that collects the MMIO beats has the first requests that arrived, in that order, each with its slot as tag, its address, its width in bytes, the byte enables for it and, for a write, its first width / 32 words; the others are in the queue. For every bus at least as wide as a header. |
| HostStreamTheorems.ResponsesDelivered | ase/sw/pcie_ss_tlp/pcie_ss_tlp_stream.c:1694-1755 | On the shared bus, with messages and MMIO between them, completion beats still deliver each response exactly. |
| HostStreamProgress.TickSends | ase/sw/pcie_ss_tlp/pcie_ss_tlp_stream.c:1318-1755 | In every run, exactly when a ready cycle puts which beat on the bus: a waiting message; else an MMIO beat if its packet is under way, or 63 cycles after the last one if the draw is at most 208; else a completion beat if the next draw is at most 208 and its packet is under way, or 250 cycles after the request unless bandwidth is unlimited. |
| HostStreamProgress.ChannelDrains | ase/sw/pcie_ss_tlp/pcie_ss_tlp_stream.c:1318-1609 | Nothing else arriving, as many cycles that send as there are DWORDs and packet starts owed empty the MMIO queue and the list of completions, whatever messages and refused cycles lie between. |
| HostStreamProgress.AllDelivered | ase/sw/pcie_ss_tlp/pcie_ss_tlp_stream.c:1694-1755 | And then the AFU has received every MMIO request that arrived and every response completely. |
| HostStreamProgress.BeatsFill | ase/sw/pcie_ss_tlp/pcie_ss_tlp_stream.c:1318-1609 | In every run every MMIO and completion beat uses the whole width of the bus, less the eight DWORDs of its header if it has one. |
| HostStream.CollectSent | ase/sw/pcie_ss_tlp/pcie_ss_tlp_stream.c:1337-1441 | Each write beat adds its words to what the collector has, and the collector ends a packet where the sender does, with the whole payload. |
| HostStream.CollectsExactly | ase/sw/pcie_ss_tlp/pcie_ss_tlp_stream.c:505-536 | Whatever the beats of a packet, it is collected exactly when the beat that completes its length is the one marked last, with that many words in order; every other framing is an error. |
| HostStream.MmioHdrCovers | ase/sw/pcie_ss_tlp/pcie_ss_tlp_stream.c:1361-1374 | The header of an MMIO request has legal byte enables that enable exactly the bytes of its width. |
| HostStream.CollectWords | ase/sw/pcie_ss_tlp/pcie_ss_tlp_stream.c:505-536 | Collecting the words of one beat appends exactly those to the payload. |
| HostStreamTheorems.CycleKeepsInv | ase/sw/pcie_ss_tlp/pcie_ss_tlp_stream.c:1694-1755 | Every cycle of the channel keeps framing, reassembly and the read engine's invariant. |
| HostStreamTheorems.TicksAlwaysPossible | ase/sw/pcie_ss_tlp/pcie_ss_tlp_stream.c:1694-1755 | In every state that a run of the channel reaches, any cycle finds what its senders need. |
| HostSender.MmioSender.SendRequest | ase/sw/pcie_ss_tlp/pcie_ss_tlp_stream.c:1318-1442 | The sending code refuses, or puts on the bus and into its counters, exactly what the specification's step does. |
| HostSender.WriteCollector.CollectBeat | ase/sw/pcie_ss_tlp/pcie_ss_tlp_stream.c:441-536 | A beat is accepted exactly when a header in it passes the checks on writes and the framing is right; the collecting loop then fills the payload buffer as the specification does, inside its bounds. |
| PageTable.PageTable.LookupAddr | ase/sw/ase_host_memory.c:734-778 | Lookup finds the pinned page that covers the address at whatever size, with its address and level; it finds nothing exactly when no page covers it. |
| PageTable.PageTable.PinPage | ase/sw/ase_host_memory.c:780-838 | A pin adds one reference at the page and replaces the smaller pages inside it, reviving or removing their stale entries; it fails and changes nothing exactly under a larger page or when there is no memory for a node that is missing on the way, and asserts exactly at 255 references. |
| PageTable.PageTable.UnpinPage | ase/sw/ase_host_memory.c:840-896 | An unpin of a pinned page drops one reference, and the page with the last; any other changes nothing. It reads through an entry that is no node exactly inside a larger pinned page, and fails an assertion exactly on a 4KB entry whose flag outlived its count. |
| PageTable.RunOperations | ase/sw/ase_host_memory.c:780-896 | Running pins and unpins on an empty table leaves exactly the pages that the operations carried out say, each with the count and address due to it. Where the run stops, the operations so far decide the outcome, unless a node cannot be allocated: an error under a larger page or for a page not pinned, a bad access inside a pinned larger page, a failed assertion at 255 references or for a 4KB page unpinned to zero and not replaced since. |
| PageTableMap.UnpinSpent | ase/sw/ase_host_memory.c:868-886 | After an unpin the entries that outlive their count are those of the 4KB pages unpinned to zero and neither pinned nor replaced since. |
| PageTable.PageTable.DeleteTree | ase/sw/ase_host_memory.c:713-727 | Deleting a sub-tree releases exactly its nodes, each once. |
| PageTable.PageTable.Terminate | ase/sw/ase_host_memory.c:503-520 | Deleting the whole table leaves no node allocated. |
| PageTableSpec.PinnedDisjoint | ase/sw/ase_host_memory.c:734-838 | In a well-formed table no pinned page lies inside another: the table is a map of disjoint pages. |
| PageTableSpec.IdxIsUp | ase/sw/ase_host_memory.c:662-668 | The index bits taken at a level are those of the page that contains the address at that level. |
| PageTableMap.CountsReferences | ase/sw/ase_host_memory.c:780-896 | Over every run of pins and unpins, stopped by none that is not allowed, a page is in the table exactly while pinned more often than unpinned since a larger page last replaced it, with that difference as count and the last address given. |
| PageTableMap.PinnedTable | ase/sw/ase_host_memory.c:814-826 | Counting up one entry and emptying what is inside it pins the page in the map. |
| PageTableMap.UnpinnedTable | ase/sw/ase_host_memory.c:868-884 | Counting down one entry, and clearing it at zero, unpins the page in the map. |
| PageTableDelete.Prune | ase/sw/ase_host_memory.c:713-727 | Releasing the sub-tree behind an entry and clearing the entry leaves a well-formed table without leaks. |
| PageTableSteps.AddNode | ase/sw/ase_host_memory.c:793-806 | Linking a fresh zeroed node below an empty entry keeps the table well formed. |
| HostMemory.PaTable.VaToPa | ase/sw/ase_host_memory.c:349-395 | Translation gives the XOR address of a mapped page and records the page, from whatever 4KB of it was asked for; from address 4096 on it can neither assert nor fault, fails only for want of memory for a missing node, and every record keeps count 1. |
| HostMemory.PaTable.Record | ase/sw/ase_host_memory.c:370-393 | Recording leaves a page that has a record alone, gives one with count 1 to a page that has none, and never touches the record of another page. |
| HostMemory.PaTable.PaToVa | ase/sw/ase_host_memory.c:398-422 | The reverse translation is 0 exactly when no recorded page covers the address (or the record is 0), and else the record or-ed with the offset. |
| Translation.RoundTrip | ase/sw/ase_host_memory.c:349-422 | All addresses of a recorded page translate back to themselves if and only if the record keeps the start of the page. |
| HostMemory.PaTable.InvalVaRange | ase/sw/ase_host_memory.c:425-453 | Invalidating a range terminates; it removes exactly the pages with an address in the range before the first unmapped one and leaves stale exactly the 4KB entries among them, or fails an assertion exactly when it reaches a 4KB page that was translated, invalidated since and not translated again. Pages recorded from any address inside them included, whatever the mapping was before. |
| HostMemory.InvalidateTwice | ase/sw/ase_host_memory.c:425-453 | Translating any address of a 4KB page once and invalidating a range from it twice fails an assertion. |
| HostMemory.InvalidateAcrossHole | ase/sw/ase_host_memory.c:425-453 | Translating a page and invalidating a range that has a hole before it leaves the page recorded, and the records wrong for every mapping that changes it. |
| HostMemory.PaTable.Remapped | ase/sw/ase_host_memory.c:349-453 | The records, and the account of the past, are right for every mapping that leaves the recorded pages alone. |
| TranslationHistory.TracksAfterChange | ase/sw/ase_host_memory.c:349-453 | Records that are right for one mapping are right for another if and only if no recorded page differs. |
| TranslationHistory.AfterChange | ase/sw/ase_host_memory.c:349-453 | So is the account of past translations and invalidations, in whatever mappings they took place. |
| TranslationHistory.TranslatedAccounted | ase/sw/ase_host_memory.c:349-395 | Recording a page keeps the table the account of the past: the addresses of recorded pages are those translated and not invalidated since, and the stale 4KB entries those invalidated in a 4KB page and not translated since. |
| TranslationHistory.InvalidatedAccounted | ase/sw/ase_host_memory.c:425-453 | Invalidating a range keeps the table the account of the past. |
| TranslationHistory.StaleIsRetired | ase/sw/ase_host_memory.c:425-453 | A range reaches a stale entry exactly when the past says it reaches a 4KB page taken back and not translated since. |
| Translation.SweptNext | ase/sw/ase_host_memory.c:433-450 | Dropping one page extends the swept part of the range to the end of that page and no further, wherever in their pages the records were made. |
| Translation.MisalignedRecord | ase/sw/ase_host_memory.c:349-422 | A page recorded from an address inside it translates correctly everywhere exactly when that address is in the page's first 4KB. |
| Translation.OnlyOwnSlot | ase/sw/ase_host_memory.c:349-395 | A recorded page that covers the physical address of a mapped page, at any size, is that page's own record. |
| Translation.PinTracks | ase/sw/ase_host_memory.c:349-395 | Recording any address of an unrecorded page replaces no other record and keeps every count at 1. |
| HostMemory.SecondUnpin | ase/sw/ase_host_memory.c:879-886 | Pinning a 4KB page once and unpinning it twice fails an assertion instead of returning an error, for every address. |
| HostMemory.UnpinInside | ase/sw/ase_host_memory.c:851-866 | Unpinning a page inside a pinned larger one reads through the larger page's entry instead of returning an error, for every address and sizes. |
| PhysicalMap.DisjointStaysDisjoint | ase/sw/ase_host_memory.c:249-257 | The per-level XOR sends pages of any two sizes that do not overlap to pages that do not overlap. |
| PhysicalMap.PaBasics | ase/sw/ase_host_memory.c:249-257 | The XOR keeps page offsets and 48-bit addresses and is its own inverse. |
| PhysicalMap.CountsDown | ase/sw/ase_host_memory.c:249-257 | In figures: bit 47 and up and the offset in the page stay, and a page as far from the start of a half of the 48-bit range is mapped to the one as far from its end. |
| PhysicalMap.SamePhysicalPage | ase/sw/ase_host_memory.c:249-257 | Two addresses mapped with different sizes share a physical page of the larger size exactly when they share the virtual one. |
| Translation.PaAdds | ase/sw/ase_host_memory.c:249-257 | Consecutive addresses of a virtual page map to consecutive physical ones. |
| MmioTheorems.ErrorsUnreachable | ase/sw/pcie_ss_tlp/pcie_ss_tlp_stream.c:1218-1242 | In every interleaving the simulator never finds a read's slot busy or a completion's tag inactive, and the watcher never lacks a slot; the one error left is running out of slots. |
| MmioTheorems.ReadsGetTheirAnswers | ase/sw/app_backend.c:1194-1259 | Every read that is over returned the AFU's answer to that very read, or all ones where there is no such AFU port. |
| MmioWrites.WritesDelivered | ase/sw/app_backend.c:840-1191 | In every interleaving the AFU is sent the calls of its ports in the order in which they were issued, each at most once, as reads and writes with the data given; a write that is over has been sent, and every such call has been once no thread puts and the two queues are empty. |
| MmioTheorems.OneToken | ase/sw/app_backend.c:840-924 | In every interleaving a slot with either flag set owns exactly one token (claim, queued message, read at the AFU, response in hand, or data in the slot), and a free slot none. |
| MmioTheorems.NothingLost | ase/sw/app_backend.c:249-323 | When no thread puts, nothing is under way and no thread waits, every call is over and every slot free. |
| MmioSlots.NoSlotOnlyPastClearing | ase/sw/app_backend.c:224-241 | In every run that ends without a slot, the last scan has passed over an unused slot because its reader was between its two clears. |
| MmioSlots.SecondFlag | ase/sw/app_backend.c:840-851 | The scan passes over a slot whose first flag is clear exactly while its reader is between the two clears, and takes it otherwise. |
| MmioSlots.OutOfSlots | ase/sw/app_backend.c:840-914 | There is such a run: 64 reads, the first between its two clears, and one call more. |
| MmioTheorems.StepInv | ase/sw/app_backend.c:224-323 | Every single shared-memory access of every party keeps the invariant. |
| MmioTheorems.RunInv | ase/sw/app_backend.c:224-323 | The invariant holds after every run from the cleared scoreboard. |
| MmioProof.FindRight | ase/sw/app_backend.c:859-869 | The watcher's scan cannot stop at an earlier slot, even one being filled with an old transaction ID in it, nor pass the right one. |
| MmioProof.ReceiveFacts | ase/sw/pcie_ss_tlp/pcie_ss_tlp_stream.c:1185-1242 | A request taken by the simulator is the owner's of its slot, and a read's table entry is idle. |
| MmioProof.CompleteFacts | ase/sw/pcie_ss_tlp/pcie_ss_tlp_stream.c:396-416 | A completion's tag is active, and the response made for it carries the owner's transaction ID. |
| MmioProof.ClaimInv | ase/sw/app_backend.c:886-914 | Setting the first flag of the slot found claims it: no other party can hold it. |
| AtsTags.ReleasedExactly | ase/sw/ase_pcie_ats.c:116-158 | Responses release a tag exactly when they all have the same count and there are as many as it says, 8 if it is 0; fewer leave it busy with that number expected and their own number received; any disagreement is an error. |
| AtsTags.FailsExactly | ase/sw/ase_pcie_ats.c:116-158 | While a tag waits, one more response is an error exactly when its count differs from the first one's, and releases the tag exactly when it is the last of as many as the count says. |
| AtsTags.TagTable.Alloc | ase/sw/ase_pcie_ats.c:77-109 | Allocation gives a tag that was not busy, records the cycle for it and changes no other, or none exactly when all 32 are busy. |
| AtsTags.TagTable.Free | ase/sw/ase_pcie_ats.c:116-167 | A response advances exactly the tags it names, releases each exactly when its responses are as many as the count says (8 if it is 0), leaves the others alone, and is an error exactly when it names an idle tag or disagrees with earlier responses; it has then advanced the tags below that one and no others, and counted itself for that one if it is busy. |
| AtsTags.TagTable.Cycle | ase/sw/ase_pcie_ats.c:174-196 | The check fails exactly when some busy tag was allocated more than 10000 cycles ago. |
| AtsTags.TagTable.BusyCounts | ase/sw/ase_pcie_ats.c:77-167 | A busy tag has either no response yet or 1 <= received < expected <= 8, with the counters those of the responses seen. |
| AtsRange.LogIsCeiling | ase/sw/app_backend.c:2139-2151 | The loop's result is at most k exactly when n is at most two to the k. |
| AtsRange.Ilog2Ceil | ase/sw/app_backend.c:2139-2151 | The shifting loop computes the ceiling of log2. |
| AtsRange.CoverRange | ase/sw/app_backend.c:2170-2183 | For every 64-bit start and every length whose chunk size is a 64-bit number: at most two chunks, adjacent, equal, naturally aligned powers of two of at least 4KB, that cover the range; nothing when rounding its end up wraps around; and at most one page when the count of its pages wraps. The loop ends. |
| AtsRange.DecodeEncodes | ase/sw/ase_pcie_ats.c:53-71 | Reading the eight bytes of a payload in wire order as the standard says gives back address, size and flags, for every naturally aligned power-of-two page of at least 4KB other than one at 0 and flags below bit 11. |
| AtsRange.SwapTwice | ase/sw/ase_pcie_ats.c:70-70 | Reversing the bytes twice gives the number back. |
| AtsRange.SwappedByte | ase/sw/ase_pcie_ats.c:70-70 | Byte i of a payload is byte 7 - i of the number, counted in powers of 256. |
| AtsRange.TinyPage | ase/sw/ase_pcie_ats.c:53-71 | A page length below 4KB, which the payload has no encoding for, sets every bit of the wire's big-endian number from bit 11 up. |
| AtsRange.InvalidationCovers | ase/sw/app_backend.c:2105-2183 | The payloads sent for a range name every byte of it exactly when it is one page long or starts at or above the chunk size. |
| AtsRange.LowRangeMissed | ase/sw/app_backend.c:2170-2183 | An instance: for 8KB at 0x1000 no payload names 0x1000, because the chunk at 0 is sent as 0. |
| AtsRange.WrappedRange | ase/sw/app_backend.c:2170-2183 | An instance: for the two pages at 0xffffffffffffd000 nothing is sent. |
| AtsRange.UnmapHook | ase/sw/app_backend.c:2160-2187 | The hook sends the encodings of the chunks and removes from the table exactly the pages reached by the range, recorded from wherever in them, or fails an assertion exactly under the condition of the invalidation; it does neither while translation is inactive. The records are then right for every mapping that differs only in pages the range has reached. |
| TranslationHistory.NoHoles | ase/sw/app_backend.c:2160-2187 | A range without unmapped addresses reaches all its pages, so that they may all be unmapped or mapped anew. |
| ByteWrite.Write | ase/sw/app_backend.c:1904-2003 | A byte-enabled write changes exactly the enabled bytes, to the payload's, and is rejected exactly when its length is not a positive number of DWORDs. |
| ByteWrite.RangeWritten | ase/sw/protocol_backend.c:371-384 | The request encoded for a non-empty byte range enables exactly the bytes of the range. |
| ByteWrite.WriteRange | ase/sw/protocol_backend.c:365-389 | Encoding a byte range and carrying out the write changes exactly that range of memory. |
| TlpHeader.RoundTrip | ase/sw/pcie_ss_tlp/pcie_ss_tlp_hdr.c:59-309 | Unpacking a packed power-user header gives it back if and only if its fields fit: ten tag bits, whole DWORDs below 4096 bytes, aligned or 32-bit address, attributes and fc zero, first message byte the low tag byte. |
| TlpHeader.Kinds | ase/sw/pcie_ss_tlp/pcie_tlp_func.h:86-133 | Which type bytes are memory requests, completions and messages, in figures. |
| TlpHeader.Layout | ase/sw/pcie_ss_tlp/pcie_ss_tlp_hdr.c:59-166 | Where each field of a power-user header that fits is, by division and remainder of its DWORD: type, tag bits, length, requester, byte enables, address halves, completer, status, byte count, message bytes, prefix, function and metadata. |
| TlpHeader.PackHeader | ase/sw/pcie_ss_tlp/pcie_ss_tlp_hdr.c:46-166 | The packing code, in both header formats, writes exactly the header's DWORDs, clears the rest of the bus, keeps exactly the header's bytes and flags data-mover headers. |
| TlpHeader.SendAndRead | ase/sw/pcie_ss_tlp/pcie_ss_tlp_hdr.c:59-309 | A header written to the bus is read back unchanged if and only if its fields fit. |
| TlpHeader.FunctionBack | ase/sw/pcie_ss_tlp/pcie_ss_tlp_hdr.c:83-90 | The function DWORD gives its fields back exactly when they fit. |
| TlpHeader.DmCompletionBack | ase/sw/pcie_ss_tlp/pcie_ss_tlp_hdr.c:120-137 | A packed data-mover completion gives back its tag, last flag, length, low address and status exactly when they fit their fields. |
| MessageQueue.ReceivedIsSent | ase/sw/mqueue_ops.c:318-403 | However short writes and reads interleave, the messages received are the first of those sent, in order, and all of them once both sides rest and the pipe is empty. |
| MessageQueue.AtBoundary | ase/sw/mqueue_ops.c:318-364 | Between messages the pipe is empty or starts with the whole length word of the next message. |
| MessageQueue.OverflowOnlyWhenTooLong | ase/sw/mqueue_ops.c:366-372 | A receiver gives up exactly on a message longer than its buffer. |
| MessageQueue.Pipe.Send | ase/sw/mqueue_ops.c:318-345 | The sending loop appends exactly the message's frame, whatever the writes accept. |
| MessageQueue.Inlet.Receive | ase/sw/mqueue_ops.c:352-403 | The receiving loop takes exactly the frame whose length word is in the pipe, waiting for its payload however it arrives and whatever the reads return; nothing is taken when the pipe is empty, the bytes of a length word that is not whole are dropped, and it gives up, in the middle of the payload, only after 100000 reads in a row found nothing. |
| WorkspaceTable.Tracker.Add | ase/api/src/wsid_list.c:95-121 | An added entry goes on top of its ID's entries, at the head of the chain of the ID's bucket; all other IDs and chains are unchanged. |
| WorkspaceTable.Tracker.Find | ase/api/src/wsid_list.c:201-210 | Find gives the node of the latest entry of an ID, and none exactly when it has no entry. |
| WorkspaceTable.Tracker.Del | ase/api/src/wsid_list.c:131-159 | Delete removes the latest entry of an ID and nothing else, releases exactly its node, and fails exactly when there is none. |
| WorkspaceTable.Tracker.Cleanup | ase/api/src/wsid_list.c:167-191 | Cleanup visits every node that was added and not deleted once, and no other. |
| WorkspaceTable.Init | ase/api/src/wsid_list.c:48-66 | A table is made exactly for 1 to 16384 buckets, and is empty. |
| WorkspaceTable.WithoutFirst | ase/api/src/wsid_list.c:131-159 | Taking the first node of an ID out of a chain drops its latest entry and keeps all other entries. |
| InterruptQueue.Interrupts.Request | ase/sw/axis_pcie_tlp/pcie_tlp_stream.c:1005-1036 | A request joins the queue exactly when it is the last beat, its ID is in range and not already queued. |
| InterruptQueue.Interrupts.Respond | ase/sw/axis_pcie_tlp/pcie_tlp_stream.c:1629-1658 | A response is for the interrupt that has waited longest and at least 200 cycles; requests are answered once each, in order. |

## Left out

- ReadChannel.ReadChannel.SendCompletion: the header is a record of its fields here and its DWORDs on the bus are not written; `TlpHeader` models their layout.
- HostSender.MmioSender.SendRequest: the header is a record here as well.
- HostStreamTheorems.PacketsStayWhole: holds for runs without a reset in the middle of a packet, which resets the state but not the DWORD counters.
- HostStream: arbitration between the senders of the bus is modelled on values; the state variable is not a field of a class.
- HostMemory.PaTable.PaToVa: the translation of pinned I/O addresses has the same code over the table of pinned pages and is not repeated.
- HostMemory.PaTable.VaToPa: says nothing about records of addresses below 4096, which the table stores as 0 and lookup takes for none.
- AtsTags.TagTable.Alloc: the program tries again while all tags are busy; the method reports it.
- AtsRange.CoverRange: for lengths up to 2^63, beyond which the program shifts by 64 or more.
- TlpHeader.RoundTrip: power-user headers only; of the data-mover headers completions are packed and never unpacked (`TlpHeader.DmCompletionBack` states their layout against a reading of it), requests unpacked and never packed, and interrupts not modelled.
- MessageQueue.ReceivedIsSent: length words are written and read whole, and runs in which the receiver gives up on empty reads are left out; `MessageQueue.Inlet.Receive` has that limit.
- DMA write completions, the older copy of the read engine, the external IOVA allocator and everything that only moves data between files, sockets, shared memory and the operating system.
- Enumeration, buffer preparation, configuration parsing, logging and timing limits: no state worth an invariant.
