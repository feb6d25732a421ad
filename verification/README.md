# A model of WasabiOS

WasabiOS is a small operating system in Rust. This project models the parts of it whose correctness
is a property of whole runs rather than of one branch, and proves that property for every run:

- **The heap** (`Heap`, `HeapRuns`, `Allocator`). A first-fit allocator threads 32-byte headers
  through the memory it manages. Memory is a map from address to what is stored
  there, a header occupying 32 addresses; the operations
  are adding a region, allocating, freeing and storing through a live pointer. In every run the blocks
  partition the added regions, live allocations are disjoint and aligned, nobody else's call
  changes their bytes, and a pointer is live exactly from the call that hands it out to the call that
  frees it.
- **The page table** (`PageTable`, `Mapping`, `Paging`). The four-level tree that `create_mapping`
  grows refines a flat map from virtual page to physical page, rights and cache control.
- **The xHCI rings** (`BitField`, `Trb`, `Ring`, `CommandRing`, `TransferRing`, `EventRing`, `Xhci`).
  Software and controller run in any interleaving of single words written and, in `pop`, read; the
  controller takes a command in one step and goes where the Link it reads sends it. Commands and events
  are delivered whole, in order and once, and each future gets exactly the events that concern it.
- **The TCP socket** (`Tcp`, `TcpPeer`, `Checksum`, `Packet`, `TcpSocket`). The state machine with
  32-bit sequence numbers, the byte stream in both directions, where each segment goes, packet building
  and parsing, the one's-complement checksum.
- **Drawing and the scrolling terminal** (`Bitmap`, `Line`, `Terminal`, `TextArea`). Overlapping pixel
  moves act as simultaneous copies, the pixels of a text area always show its text grid, and it is
  shown which lines are connected.
- **Loading programs** (`LittleEndian`, `Elf`, `ElfRelocs`, `ElfImage`, `Loader`, `Args`). Which
  relocations the bytes of a file ask for, what every byte of a loaded and relocated image is, and the
  argument block handed to the program.

Code that updates memory step by step is a class or a method here too, with loops where the source has
loops. Each such member is proved against a function on values; the theorems are about those functions
and hold for runs of any length. `Common` and `BitMath` hold shared definitions and arithmetic.

Panics and `Err` results of the source are `Err`, `None` or `false` here. I/O, locks and logging have no
counterpart.

## What the proofs show about the code

- A producer ring of 15 TRBs and a Link carries at most 14 commands the controller has not taken
  (`Ring.CursorSees`). Fourteen is sharp: with 15, a controller that waits at the Link stalls
  (`Ring.FifteenStalls`). `CommandRing` does not count, so the bound is its caller's obligation.
- `EventRing::pop` leaves the slot it has just consumed in ERDP, not the next one. A controller that
  stops short of ERDP therefore never overwrites an unread event, and has one slot fewer to fill.
- The pixels of `bitmap_draw_line` are 4-connected if and only if
  `(abs(dy) * 2^20) % (abs(dx) + 1) <= 2^20` (`Line.LineIsConnected`). Lines of at most 2^20 columns
  always satisfy this; `Line.LongLineBreaks` gives a longer line that does not.
- `bitmap_draw_point` tests the column twice and the row never (noli/src/bitmap.rs:72). A row out of
  range is a write outside the buffer, and nothing else is (`Bitmap.PlaceInBuffer`). Its callers' own
  checks are what keeps the rows in range; every caller in the model is proved to do so.
- A Link TRB given to `CommandRing::push` is accepted, and puts the ring out of order
  (`CommandRing.PushSucceeds`, `CommandRing.StaleLinkIsHandedOver`).
- A text area of one row can be scrolled only if it touches neither the top nor the bottom edge of its
  bitmap, since the empty move of the other rows is range-checked; `TextArea.TextArea.PrintString` has
  the exact condition for printing to fail.
- `gen_tcp_packet` and the parse in `handle_rx` are inverse if and only if the payload has at most
  65495 bytes; a longer one wraps the 16-bit length of the IPv4 header (`Packet.ParseInvertsGenerate`).
- `open_tcp_socket` registers a client before it opens it, and `open` fails while the machine has no
  address. Such a client is established by a segment that acknowledges number 0
  (`Tcp.UnopenedIsEstablished`). That an establishing segment acknowledges the SYN, that the addresses
  are then known and that `poll_tx` sends what is queued holds exactly for the other sockets
  (`Tcp.RunErrsExactly`).
- A FIN that the socket sends does not advance its own number (`Tcp.FinKeepsNumber`), and any
  acknowledgement ends `LastAck` (`Tcp.LastAckEnds`, `Tcp.FinNeedNotBeAcknowledged`).
- `handle_rx` never compares the number of a data segment with the one it expects. What the
  application reads is the peer's stream if and only if the network delivers in order, without gap or
  repetition (`TcpPeer.RunReceivesTheStream`, `TcpPeer.OvertakingIsNotNoticed`).

## Model

| member | source | states |
|---|---|---|
| `BitMath.RoundUpIsLeastPow2` | os/src/util.rs:77-81 | the result is the least power of two not below the argument; the only errors are zero and values above 2^63 |
| `BitMath.ClearLowBits` | os/src/allocator.rs:85 | `x & !(align - 1)` is the greatest multiple of a power of two not above `x` |
| `Heap.FirstFit` | os/src/allocator.rs:151-168 | the block found can provide, and no block before it in the chain can |
| `Heap.PayloadIn` | os/src/allocator.rs:84-87 | the payload is aligned, leaves room for two headers below it, and ends inside the block |
| `Heap.ClearUsed` | os/src/allocator.rs:142-147 | freeing clears the flag of the blocks at one address and changes no other block |
| `Heap.TileDisjoint` | os/src/allocator.rs:67-108 | blocks at different positions of the chain never overlap |
| `Heap.TileCovers` | os/src/allocator.rs:67-108 | every address of an added region lies in some block |
| `Heap.TileSum` | os/src/allocator.rs:67-108 | block sizes sum to the bytes added |
| `Heap.InvPartition` | os/src/allocator.rs:67-108 | in every state with the invariant: disjoint blocks of positive size, each a multiple of 32 and inside one region, covering every region, sizes summing to the bytes added |
| `HeapRuns.NormalizeShape` | os/src/allocator.rs:67-70 | only size zero is refused; the size becomes the least power of two that covers it and is at least 32, the alignment at least 32, and the sum tested by `can_provide` does not wrap |
| `HeapRuns.PiecesTile` | os/src/allocator.rs:67-108 | the shrunk block, the allocation and the padding tile the carved block exactly |
| `HeapRuns.TilesSplice` | os/src/allocator.rs:67-108 | blocks that tile the place of one block may replace it in the chain |
| `HeapRuns.CarveWritesShape` | os/src/allocator.rs:86-108 | all 32 bytes of every header that is written lie in the carved block, no header is written over another, each piece leads to the next, and nothing outside the block changes |
| `HeapRuns.CarvedKeeps` | os/src/allocator.rs:67-108 | carving keeps the whole invariant: intact and linked headers, tiling, alignment, live allocations |
| `HeapRuns.AllocResult` | os/src/allocator.rs:139-168 | null exactly when no block can provide; otherwise the first block that can is carved at its highest aligned fit, the pointer is new and aligned, and no used block or byte of one changes |
| `HeapRuns.AllocNullExactly` | os/src/allocator.rs:151-168 | null exactly for size zero, or if every free block is smaller than the rounded size plus 96 plus the alignment |
| `HeapRuns.AllocConserves` | os/src/allocator.rs:67-108 | an allocation takes its rounded size and one header of 32 bytes out of the free bytes, and nothing else |
| `HeapRuns.FreeKeeps` | os/src/allocator.rs:142-147 | freeing a live pointer finds its header, keeps the invariant and leaves all other used blocks alone |
| `HeapRuns.FreeReleases` | os/src/allocator.rs:142-147 | after `dealloc` the pointer is not live and every other is, with its layout; its block keeps place and size and is free in the chain and in memory; no other byte changes, and the free bytes grow by that block |
| `HeapRuns.FreedIsReused` | os/src/allocator.rs:142-168 | an allocation that follows, for which no block before it serves, is made inside the freed block if that is large enough |
| `HeapRuns.AddKeeps` | os/src/allocator.rs:184-197 | the new region, one free block with a 32-byte header, comes in front of chain and regions and its bytes are added to the free ones; the invariant, the live pointers and every byte of the used blocks are kept |
| `HeapRuns.StoreKeeps` | os/src/allocator.rs:67-108 | a client writing inside its own payload leaves all 32 bytes of every header alone, and keeps the invariant |
| `HeapRuns.HeadersClearOfPayloads` | os/src/allocator.rs:67-108 | no byte of the header of any block, used or free, lies in a live payload |
| `HeapRuns.StepKeeps` | os/src/allocator.rs:139-197 | every legal operation keeps the invariant |
| `HeapRuns.LivePayloadsDisjoint` | os/src/allocator.rs:67-108 | two live allocations share no byte of header or payload |
| `HeapRuns.StepStable` | os/src/allocator.rs:139-197 | one operation that does not name a live pointer leaves it live, with its layout and its bytes |
| `HeapRuns.RunStable` | os/src/allocator.rs:139-197 | the same over every run |
| `HeapRuns.StepLive` | os/src/allocator.rs:139-197 | after an operation a pointer is live exactly if the operation handed it out, or it was live and this was not the call that frees it |
| `HeapRuns.RunLiveExactly` | os/src/allocator.rs:139-197 | over every run a pointer is live exactly if the last call that concerned it handed it out |
| `HeapRuns.RunPartitions` | os/src/allocator.rs:139-197 | every run from the empty heap ends in a partition of its regions into blocks of positive multiples of 32 bytes |
| `HeapRuns.RunServes` | os/src/allocator.rs:139-197 | after every run each live allocation is aligned, lies inside one region behind an intact header that is marked used and holds its rounded size, overlaps no other, and its payload meets no byte of any block's header |
| `Allocator.FirstFitAllocator.Provide` | os/src/allocator.rs:67-108 | `provide` on a header in the chain: refuses without a change exactly when the block cannot serve, otherwise carves it as specified |
| `Allocator.FirstFitAllocator.Carve` | os/src/allocator.rs:86-108 | the whole-header writes, in place, produce the carved state |
| `Allocator.FirstFitAllocator.AllocWithOptions` | os/src/allocator.rs:151-168 | following the links in memory computes the first-fit allocation |
| `Allocator.FirstFitAllocator.Dealloc` | os/src/allocator.rs:142-147 | clears the flag in memory of the header before the pointer and keeps the invariant |
| `Allocator.FirstFitAllocator.AddFreeFromDescriptor` | os/src/allocator.rs:184-197 | links the new region in as the first block and keeps the invariant |
| `PageTable.FreshInv` | os/src/x86_64/paging.rs:271-278 | a new table satisfies the invariant and maps nothing |
| `PageTable.TranslateExactly` | os/src/x86_64/paging.rs:308-326 | whatever the tables hold, an address is translated exactly if bit 0 of the entry is set at all four levels, each found at the page address of the entry before it |
| `PageTable.WalkPlace` | os/src/x86_64/paging.rs:173-186 | a walk ends at the table whose recorded place is the path walked |
| `PageTable.NoSharedTable` | os/src/x86_64/paging.rs:194-209 | the tables form a tree: no table is reached by two paths, each by one |
| `PageTable.PopulateKeeps` | os/src/x86_64/paging.rs:194-202 | linking an empty table keeps the invariant |
| `PageTable.PopulateLeaf` | os/src/x86_64/paging.rs:194-202 | linking an empty table changes no last-level entry |
| `PageTable.SetKeeps` | os/src/x86_64/paging.rs:210-218 | setting a last-level entry keeps the invariant |
| `PageTable.SetLeaf` | os/src/x86_64/paging.rs:210-218 | setting a last-level entry changes that entry and no other |
| `Mapping.IndicesOfPage` | os/src/x86_64/paging.rs:254-256 | the four indices and the 36-bit page number determine each other |
| `Mapping.EnsureKeeps` | os/src/x86_64/paging.rs:203-209 | after `ensure_populated` the entry leads to the table one level down, at a cost of at most one page, and nothing else changed |
| `Mapping.DescendKeeps` | os/src/x86_64/paging.rs:296-302 | three levels of that reach the last-level table of the path, with at most three pages |
| `Mapping.MapPageLeaf` | os/src/x86_64/paging.rs:296-304 | mapping a page sets its last-level entry and no other |
| `Mapping.MapFromAgrees` | os/src/x86_64/paging.rs:295-306 | the loop keeps tables and flat map in step, whatever was mapped before |
| `Mapping.CreateMappingAgrees` | os/src/x86_64/paging.rs:279-307 | fails exactly if start, end or physical address is no multiple of 4096 and then changes nothing, runs out of memory only with fewer than three free pages per mapped page, otherwise the tables agree with the updated flat map |
| `Mapping.AgreesTranslate` | os/src/x86_64/paging.rs:308-326 | where tables and flat map agree, `translate` is the lookup in the flat map |
| `Mapping.MappingClosed` | os/src/x86_64/paging.rs:279-307 | a request within one 48-bit span gives each of its pages `phys + page - virt_start`, or not found for `NotPresent`, and leaves every other page as it was |
| `Mapping.EntryDecodes` | os/src/x86_64/paging.rs:118-158 | address and attribute of an entry read back |
| `Mapping.EntryCaching` | os/src/x86_64/paging.rs:118-134 | write-through and cache-disable are set exactly for device memory, and no other bit is |
| `Mapping.EntriesDiffer` | os/src/x86_64/paging.rs:118-134 | two entries are equal exactly if address and attribute are |
| `Mapping.UpperLevelsOpen` | os/src/x86_64/paging.rs:194-202 | the entries above the last level on a walk are present, writable and user |
| `Mapping.RightsAreTheLeafs` | os/src/x86_64/paging.rs:118-158 | the rights ANDed over four levels are those of the attribute the page was mapped with |
| `Mapping.CachingIsTheLeafs` | os/src/x86_64/paging.rs:118-134 | the last-level entry of a page disables the cache exactly if the page was mapped as device memory |
| `Mapping.RunKeepsAgreement` | os/src/x86_64/paging.rs:279-307 | every sequence of calls keeps the invariant and the agreement |
| `Mapping.RunFits` | os/src/x86_64/paging.rs:279-307 | with three free pages for each page the aligned requests map, no call of a whole run runs out of memory |
| `Mapping.RunRefinesFlatMap` | os/src/x86_64/paging.rs:279-326 | after any calls on a fresh table that find memory, as all do with three free pages per page to map, `translate`, the rights in force and the cache control are those of the flat map and no table is shared |
| `Paging.PML4.constructor` | os/src/x86_64/paging.rs:271-278 | the fresh table |
| `Paging.PML4.Below` | os/src/x86_64/paging.rs:180-209 | `ensure_populated` and `table_mut` in place: the table below, or none exactly when a page is needed and there is none |
| `Paging.PML4.LastTable` | os/src/x86_64/paging.rs:296-302 | descending three levels in place is the specified descent |
| `Paging.PML4.SetPage` | os/src/x86_64/paging.rs:296-304 | one turn of the loop in place is the specified one, error cases included |
| `Paging.PML4.StoreEntry` | os/src/x86_64/paging.rs:210-218 | setting a last-level entry in place is the specified update |
| `Paging.PML4.CreateMapping` | os/src/x86_64/paging.rs:279-307 | the loop in place is the specified mapping, error cases included |
| `Paging.PML4.Translate` | os/src/x86_64/paging.rs:308-326 | the walk with its early exits is the specified translation |
| `BitField.WriteThenRead` | os/src/volatile.rs:53-65 | a write is refused exactly when the value is too wide; otherwise the field reads back and the bits above and below are kept |
| `BitField.WriteFrame` | os/src/volatile.rs:53-65 | writing a field leaves every disjoint field alone |
| `BitField.WriteInWord` | os/src/volatile.rs:53-61 | a write stays inside the word |
| `Trb.CycleBit` | os/src/xhci/trb.rs:88-93 | the cycle accessors read and replace bit 0 of the control word and nothing else |
| `Trb.ToggleBit` | os/src/xhci/trb.rs:94-96 | the toggle setter replaces bit 1 and nothing else |
| `Trb.KindField` | os/src/xhci/trb.rs:97-102 | the type accessors read and replace bits 10 to 15 and nothing else |
| `Trb.SlotField` | os/src/xhci/trb.rs:114-119 | the slot accessors read and replace bits 24 to 31 of a 32-bit word and nothing else |
| `Trb.NormalWords` | os/src/xhci/trb.rs:256-264 | a Normal TRB is the buffer address, the size and a control word of type 1 with bits 5 and 2 |
| `Trb.LinkWords` | os/src/xhci/trb.rs:174-180 | a Link TRB is the address of the ring and a control word of type 6 with bit 1 |
| `Ring.LappedCycles` | os/src/xhci/ring.rs:56-63 | slots before the index carry the flipped cycle, slots from it on and the Link ours |
| `Ring.FlipCurrent` | os/src/xhci/ring.rs:56-63 | handing over the current slot succeeds, changes one cycle bit, and reaches the Link exactly after slot 14 |
| `Ring.FlipLink` | os/src/xhci/ring.rs:137-155 | handing over the Link ends the lap with the cycle toggled |
| `Ring.PublishAdvances` | os/src/xhci/ring.rs:137-155 | a hand-over never fails and leaves the ring one TRB further, changing cycle bits only |
| `Ring.CursorSees` | os/src/xhci/ring.rs:56-63 | with at most 14 outstanding TRBs a consumer finds one exactly when there is one, and the Link where it expects it |
| `Ring.FifteenStalls` | os/src/xhci/ring.rs:137-155 | with 15 outstanding, a consumer at the Link is stuck |
| `CommandRing.StepKeeps` | os/src/xhci/ring.rs:137-155 | every step of every interleaving keeps the invariant and no step of `push` errs |
| `CommandRing.ControllerSees` | os/src/xhci/ring.rs:137-155 | the controller sees a TRB exactly when one is waiting, and the Link, whose address leads it back to slot 0, exactly when it has been handed over |
| `CommandRing.TakesNext` | os/src/xhci/ring.rs:137-155 | what the controller takes is the next pushed command, whole |
| `CommandRing.RunDeliversInOrder` | os/src/xhci/ring.rs:115-155 | in every run the controller has taken a prefix of the pushed commands, at most 14 behind, and a waiting command makes it move |
| `CommandRing.ControllerDrains` | os/src/xhci/ring.rs:115-155 | left alone, the controller takes everything pushed |
| `CommandRing.PushSucceeds` | os/src/xhci/ring.rs:137-155 | `push` never reports a full ring and leaves the TRB in the next slot with the flipped cycle; the ring stays in order if and only if that was not a Link |
| `CommandRing.PushErrsExactly` | os/src/xhci/ring.rs:137-155 | on any ring, `push` errs exactly if the current slot, or a Link behind it, has not our cycle |
| `CommandRing.StaleLinkIsHandedOver` | os/src/xhci/ring.rs:137-155 | a Link pushed into the middle makes a push one lap later hand over the stale slot and toggle the cycle |
| `CommandRing.StepsArePush` | os/src/xhci/ring.rs:86-99 | the word-by-word steps, uninterrupted, are one call of `push` |
| `TransferRing.NewIsFresh` | os/src/xhci/ring.rs:172-196 | a new ring has all cycles clear, and its words say: slot i the address of buffer i, the size modulo 2^16 and a Normal control word, the last slot the address of the ring and a Link control word |
| `TransferRing.DescribedWords` | os/src/xhci/ring.rs:172-196 | the words the controller reads in a ring whose slots describe its buffers |
| `TransferRing.FillSucceeds` | os/src/xhci/ring.rs:197-217 | `fill_ring` on a fresh ring succeeds with eleven TRBs handed over, and the words still describe the buffers |
| `TransferRing.DequeueKeeps` | os/src/xhci/ring.rs:218-238 | `dequeue_trb` succeeds exactly on `base + 16 * (d % 15)` and stays eleven TRBs ahead |
| `TransferRing.DequeueForever` | os/src/xhci/ring.rs:218-238 | any number of in-order calls succeeds, and the words still describe the buffers |
| `TransferRing.OwnedIsWindow` | os/src/xhci/ring.rs:218-238 | the controller owns exactly the eleven slots from the dequeue index on, around the ring |
| `TransferRing.ElevenOwned` | os/src/xhci/ring.rs:197-238 | it owns eleven slots between any two calls |
| `EventRing.PopSees` | os/src/xhci/ring.rs:320-339 | the look at the cycle bit finds an event exactly when a complete one is unread |
| `EventRing.StepKeeps` | os/src/xhci/ring.rs:320-339 | every step of the controller and every single read, index and register step of `pop` keeps the invariant, and `pop` never errs |
| `EventRing.RunDelivers` | os/src/xhci/ring.rs:296-339 | in every run the popped events are a prefix of the written ones and every unread event is intact in its slot |
| `EventRing.StepsArePop` | os/src/xhci/ring.rs:324-339 | the steps of `pop`, uninterrupted, are one call of it |
| `Xhci.TrbRing.Write` | os/src/xhci/ring.rs:86-99 | fails exactly out of range; otherwise stores the one entry |
| `Xhci.TrbRing.AdvanceIndex` | os/src/xhci/ring.rs:56-63 | in place it is the specified step, and a failure changes nothing |
| `Xhci.TrbRing.Reset` | os/src/xhci/ring.rs:44-49 | clears every cycle bit and the index and keeps everything else |
| `Xhci.HandOver` | os/src/xhci/ring.rs:137-155 | hand-over of the current TRB and of a Link behind it, in place, is the specified one |
| `Xhci.CommandRing.constructor` | os/src/xhci/ring.rs:115-128 | the new ring is a fresh producer ring whose last slot holds its own address and the control word of a Link |
| `Xhci.CommandRing.Reset` | os/src/xhci/ring.rs:129-133 | puts the ring back into the state of a fresh producer |
| `Xhci.CommandRing.Push` | os/src/xhci/ring.rs:137-155 | never fails, returns the address of slot `pushed % 15` and leaves the command there; the ring stays valid if and only if it was not a Link |
| `Xhci.TransferRing.constructor` | os/src/xhci/ring.rs:172-196 | the loop over the slots builds the fresh transfer ring, with the words of its buffers |
| `Xhci.TransferRing.FillRing` | os/src/xhci/ring.rs:197-217 | the loop succeeds and computes the filled ring |
| `Xhci.TransferRing.DequeueTrb` | os/src/xhci/ring.rs:218-238 | succeeds exactly on the pointer of slot `d % 15`; a wrong pointer leaves the state unchanged |
| `Xhci.EventWaitInfo.Resolve` | os/src/xhci/future.rs:47-52 | appends the event to the waiter's queue |
| `Xhci.EventWaitInfo.Matches` | os/src/xhci/future.rs:29-46 | true exactly if every given part of the condition equals the event's |
| `Xhci.MeetsByWords` | os/src/xhci/future.rs:29-46 | the condition is on bits 10 to 15 and 24 to 31 of the control word and on the data word |
| `Xhci.EventWaitInfo.Take` | os/src/xhci/future.rs:120-130 | takes the oldest queued event, none exactly when there is none; what was taken followed by the queue stays the same |
| `Xhci.EventWaitInfo.Drop` | os/src/xhci/future.rs:60-64 | one holder fewer |
| `Xhci.FuturesKeepValid` | os/src/xhci/future.rs:120-130 | taking events and dropping futures keeps the account of the event ring |
| `Xhci.EventRing.constructor` | os/src/xhci/ring.rs:297-313 | zeroed slots, index 0, our cycle set, nobody waiting |
| `Xhci.EventRing.Pop` | os/src/xhci/ring.rs:324-339 | returns the event at the index exactly if its cycle is ours; advances, toggles on wrap, and stores the consumed slot in ERDP keeping its low four bits |
| `Xhci.EventRing.RegisterWaiter` | os/src/xhci/ring.rs:394-397 | appends the waiter, registered before or not, and keeps the account of all other futures |
| `Xhci.EventRing.NewFuture` | os/src/xhci/future.rs:66-77 | a future's waiter is new, in the list once, and its account starts with the next event |
| `Xhci.EventRing.Offer` | os/src/xhci/ring.rs:399-412 | queues the event to a waiter exactly if it is alive and the event meets its condition |
| `Xhci.EventRing.Dispatch` | os/src/xhci/ring.rs:399-412 | queues the event to every live matching waiter, once for each registration, and to nobody else |
| `Xhci.EventRing.Tell` | os/src/xhci/ring.rs:399-412 | what was taken from a held future's queue and what is in it are exactly the events popped since its registration that meet its condition, in order; one more event keeps this |
| `Xhci.EventRing.CleanUp` | os/src/xhci/ring.rs:413-429 | removes exactly the dead waiters, keeps the order of the rest and the account of every held future |
| `Xhci.EventRing.Poll` | os/src/xhci/ring.rs:398-432 | pop, delivery and clean-up together, the register included, keeping the account of every held future; without an event nothing changes |
| `Xhci.RemoveAll` | os/src/xhci/ring.rs:413-429 | removing the stale indices one by one, highest first, leaves the live waiters in order |
| `Tcp.StepKeeps` | os/src/net/tcp.rs:301-476 | every write, read, poll, received segment and `open`, also one without an own address, keeps roles, numbers, addresses and the stream |
| `Tcp.StepFollows` | os/src/net/tcp.rs:301-476 | the state diagrams of client and server; each segment carries the number of the first data byte plus the bytes sent before it, a SYN its own number; a connection keeps its numbers |
| `Tcp.MovesExactly` | os/src/net/tcp.rs:312-391 | the next state of `handle_rx` for each state and segment; received data is appended in `Established` only, and only a SYN advances the own number |
| `Tcp.StepRoutes` | os/src/net/tcp.rs:235-299 | every answer goes back to the address and port the segment came from, every other segment to the peer of the connection; data is the whole queue, and only `poll_tx` sends it |
| `Tcp.StepSends` | os/src/net/tcp.rs:301-476 | exactly when each operation sends, and with which flags; `open` sends number 1234 |
| `Tcp.EstablishedBySyn` | os/src/net/tcp.rs:330-366 | a segment that establishes the connection acknowledges exactly the SYN, and all four addresses are then set, if and only if the socket listens or was opened |
| `Tcp.OnceEstablished` | os/src/net/tcp.rs:457-476 | in `Established`, all four addresses are set if and only if the socket listens or was opened |
| `Tcp.RunSendsTheStream` | os/src/net/tcp.rs:410-456 | over every interleaving the sent payloads followed by the queue are the bytes written, the data segments tile the sequence space from the SYN's number plus one, and each is addressed to the peer of the connection |
| `Tcp.PollErrsExactly` | os/src/net/tcp.rs:410-425 | `poll_tx` errs if and only if an established client that was never opened has data to send, and keeps the data |
| `Tcp.RunErrsExactly` | os/src/net/tcp.rs:301-476 | both conditions for every world a new socket can reach |
| `Tcp.UnopenedIsEstablished` | os/src/net/manager.rs:219-227 | a run in which `open` fails for want of an address and a segment acknowledging 0 establishes the client |
| `Tcp.FinKeepsNumber` | os/src/net/tcp.rs:366-376 | a FIN is sent only on leaving `Established`, carries the next number and does not advance it |
| `Tcp.LastAckEnds` | os/src/net/tcp.rs:377-387 | `LastAck` is left if and only if the segment acknowledges anything |
| `Tcp.FinNeedNotBeAcknowledged` | os/src/net/tcp.rs:377-387 | a run in which an acknowledgement that does not cover the FIN ends `LastAck` |
| `TcpPeer.PeerStepKeeps` | os/src/net/tcp.rs:301-409 | what the application has read and what waits for it are the accepted bytes of the peer's streams, in the order of acceptance, for any genuine segments in any order |
| `TcpPeer.StepOrder` | os/src/net/tcp.rs:366-376 | a step keeps what is accepted a prefix of each stream if and only if its data start where the accepted data end |
| `TcpPeer.OrderByNumber` | os/src/net/tcp.rs:366-376 | within 2^32 bytes that is to say that the segment carries the number acknowledged last |
| `TcpPeer.StepAcks` | os/src/net/tcp.rs:301-456 | in step with the peer each acknowledgement sent is IRS + 1 plus the bytes received, plus one after FIN |
| `TcpPeer.RunReceivesTheStream` | os/src/net/tcp.rs:301-456 | from a new socket, over every run on a network that loses, repeats and reorders: bytes read followed by `rx_data` are the accepted bytes, and these are the start of each stream, in order and once, if and only if every accepted data segment began where the accepted data ended |
| `TcpPeer.RunAcknowledges` | os/src/net/tcp.rs:301-456 | over every run in step, the number acknowledged last is the peer's next one |
| `TcpPeer.OvertakingIsNotNoticed` | os/src/net/tcp.rs:366-376 | a run in which two bytes that overtake each other are read in the wrong order |
| `TcpSocket.Socket.Server` | os/src/net/tcp.rs:162-175 | the new listening socket |
| `TcpSocket.Socket.Client` | os/src/net/tcp.rs:176-190 | the new client socket |
| `TcpSocket.Socket.HandleRx` | os/src/net/tcp.rs:301-409 | a packet that does not parse is an error without a change; otherwise the state machine's step on what it carries |
| `TcpSocket.Socket.HandleSegment` | os/src/net/tcp.rs:312-408 | the field updates, in their order, are the state machine's step |
| `TcpSocket.Socket.PollTx` | os/src/net/tcp.rs:410-456 | the specified send, or an error without a change |
| `TcpSocket.Socket.Open` | os/src/net/tcp.rs:457-476 | the specified SYN, or an error without a change |
| `Checksum.Fold` | os/src/net/checksum.rs:28-34 | the loop ends below 2^16 with the sum's residue modulo 0xffff, zero only for zero |
| `Checksum.ComplementVerifies` | os/src/net/checksum.rs:28-34 | a sum plus its own checksum folds to 0xffff |
| `Checksum.FeedConcat` | os/src/net/checksum.rs:21-27 | feeding an even-length piece and then another is feeding their concatenation |
| `Checksum.NoOverflow` | os/src/net/checksum.rs:21-27 | up to 65537 words the 32-bit sum does not overflow |
| `Checksum.ReplaceWord` | os/src/net/checksum.rs:21-27 | replacing a word at an even offset changes the sum by the difference |
| `Checksum.OddByteIsPadded` | os/src/net/checksum.rs:21-27 | an odd byte counts as if a zero followed it |
| `Checksum.WordIsBigEndian` | os/src/net/checksum.rs:21-27 | two bytes count as a big-endian word |
| `Checksum.InternetChecksumGenerator.Feed` | os/src/net/checksum.rs:21-27 | the loop adds the sum of the big-endian words, a last odd byte as a high byte |
| `Checksum.InternetChecksumGenerator.Finish` | os/src/net/checksum.rs:28-34 | folds and returns the complement, high byte first |
| `Packet.ParseInvertsGenerate` | os/src/net/tcp.rs:235-305 | ports, numbers, flags and payload are recovered if and only if the payload has at most 65495 bytes |
| `Packet.IpFields` | os/src/net/ip.rs:77-87 | the header's total length is the payload's plus 40, modulo 2^16, and its addresses read back |
| `Packet.ChecksumVerifies` | os/src/net/tcp.rs:289-299 | what a receiver sums, the segment and the addresses, protocol byte and length of the IPv4 header in front of it, folds to 0xffff, odd lengths included |
| `Packet.PseudoHeader` | os/src/net/tcp.rs:289-299 | the sum fed before the segment is that of the pseudo header of section 3.1 of RFC 9293 |
| `Packet.WireFormat` | os/src/net/tcp.rs:235-288 | the bytes of a generated packet: Ethernet type, IPv4 version, time to live, protocol, data offset, window, addresses, numbers, flags and payload at their offsets |
| `Packet.FillBuffer` | os/src/net/tcp.rs:235-288 | the buffer holds the headers, the payload and zero padding |
| `Packet.CopyAt` | os/src/net/tcp.rs:286-288 | copying a slice into the buffer replaces exactly its bytes |
| `Packet.GenTcpPacket` | os/src/net/tcp.rs:235-299 | filling, summing and patching the buffer yields the specified packet |
| `Bitmap.IndexInjective` | noli/src/bitmap.rs:330-342 | different pixels have different places in memory |
| `Bitmap.PlaceInBuffer` | noli/src/bitmap.rs:330-342 | for a column inside a line the place of a pixel is in the buffer if and only if its row is |
| `Bitmap.Buffer.constructor` | noli/src/bitmap.rs:443-457 | a black buffer of the given size |
| `Bitmap.Buffer.SetPixel` | noli/src/bitmap.rs:11-18 | sets one pixel, which is one memory cell, and no other |
| `Bitmap.Buffer.DrawPoint` | noli/src/bitmap.rs:71-79 | errs exactly on a column out of range, writes outside the buffer exactly on a row out of range in a column that is in range, and otherwise sets one pixel |
| `Bitmap.Buffer.DrawRect` | noli/src/bitmap.rs:81-104 | fails exactly on a rectangle out of range; otherwise colours exactly its pixels |
| `Bitmap.Buffer.DrawChar` | noli/src/bitmap.rs:172-200 | fails exactly if the 8 by 16 cell is out of range; otherwise draws the glyph's dots, and background where given, and nothing else |
| `Bitmap.Buffer.TransferRect` | noli/src/bitmap.rs:376-433 | for every overlap each destination pixel gets the old value of its source and every other pixel is unchanged |
| `Bitmap.Buffer.MoveUp` | noli/src/bitmap.rs:398-407 | copying from the top left is a simultaneous copy when moving up, or left in the same rows |
| `Bitmap.Buffer.MoveDown` | noli/src/bitmap.rs:408-417 | copying from the bottom row is a simultaneous copy when moving down |
| `Bitmap.Buffer.MoveRight` | noli/src/bitmap.rs:418-427 | copying each row from its right end is a simultaneous copy when moving right |
| `Line.RowInBox` | noli/src/bitmap.rs:54-65 | every row the truncated slope reaches lies between the endpoints' rows |
| `Line.OnLineInBox` | noli/src/bitmap.rs:20-68 | the line lies in the endpoints' bounding box |
| `Line.DrawLine` | noli/src/bitmap.rs:20-68 | fails exactly on an endpoint out of range; otherwise colours exactly the line, and terminates |
| `Line.DrawColumns` | noli/src/bitmap.rs:52-66 | the loop over columns colours exactly the vertical runs and the endpoints |
| `Line.LastRow` | noli/src/bitmap.rs:52-65 | the last column ends the rounded-up remainder over 2^20 rows short of the endpoint |
| `Line.LineIsConnected` | noli/src/bitmap.rs:20-68 | every coloured pixel reaches every other in steps to side neighbours, the endpoints among them, if and only if the remainder of the slope is at most 2^20 |
| `Line.ShortLinesConnected` | noli/src/bitmap.rs:20-68 | up to 2^20 columns a line is always 4-connected |
| `Line.LongLineBreaks` | noli/src/bitmap.rs:20-68 | in a line of 2^21 + 1 columns no coloured pixel is next to the last one |
| `Terminal.RenderScrolled` | noli/src/text_area.rs:52-75 | scrolling the text is moving all dots up by 16 and blanking the last row |
| `Terminal.RenderPut` | noli/src/text_area.rs:113-127 | putting a glyph changes the dots of its cell only |
| `Terminal.RenderCell` | noli/src/bitmap.rs:172-200 | which dots a cell of the grid shows: the glyph in the foreground colour, the rest in the background colour, all foreground for a character outside the font, black for an empty cell |
| `Terminal.LineFeed` | noli/src/text_area.rs:49-75 | code 10 goes to the start of the next row; on the last row all rows move up by one and a blank one comes in |
| `Terminal.StepBack` | noli/src/text_area.rs:109-116 | codes 8 and 127 go back one column, not beyond the first, and erase nothing |
| `Terminal.PlainText` | noli/src/text_area.rs:113-136 | a string that stays within the row appears from the cursor on and changes nothing else |
| `Terminal.LastColumn` | noli/src/text_area.rs:102-127 | a character in the last column is put there and followed by a line feed |
| `Terminal.Corrected` | noli/src/text_area.rs:109-136 | a character followed by backspace and another is as if only the other had been printed |
| `TextArea.TextArea.constructor` | noli/src/text_area.rs:28-45 | the area is black and nothing outside it changed; with room for a character it shows the empty grid |
| `TextArea.TextArea.NewLine` | noli/src/text_area.rs:49-75 | fails exactly if the area must be scrolled and cannot be; otherwise the pixels show the grid after the new line |
| `TextArea.TextArea.MoveRowsUp` | noli/src/text_area.rs:57-74 | the pixel effect of a scroll and its exact failure condition |
| `TextArea.TextArea.MoveCursorNext` | noli/src/text_area.rs:102-108 | the cursor moves on in the grid, or the exact failure |
| `TextArea.TextArea.MoveCursorPrev` | noli/src/text_area.rs:109-112 | the cursor moves back in its row and stops at the first column |
| `TextArea.TextArea.PrintChar` | noli/src/text_area.rs:113-127 | the pixels show the grid after the character, or the exact failure; nothing outside changes |
| `TextArea.TextArea.PrintString` | noli/src/text_area.rs:131-136 | the pixels show the grid after the whole string; it fails exactly if a scroll is needed and impossible; nothing outside the area changes |
| `LittleEndian.Le64Value` | os/src/util.rs:111-122 | little-endian bytes of a 64-bit number decode to it |
| `LittleEndian.WordReads` | os/src/util.rs:111-122 | eight bytes anywhere in memory that are a number's bytes read as that number |
| `LittleEndian.LowByteFirst` | os/src/util.rs:111-122 | the first of the eight bytes is the lowest, the last the highest |
| `Args.Sizes` | noli/src/args.rs:24-45 | the stored total size is the block length, the stored count the number of arguments |
| `Args.ArgumentAt` | noli/src/args.rs:24-45 | entry i gives place and length of argument i, which stands there followed by a null byte |
| `Args.DeserializeInvertsSerialize` | noli/src/args.rs:24-74 | reading back a block, whatever bytes follow it, gives the arguments |
| `Args.DeserializeExactly` | noli/src/args.rs:47-74 | arbitrary bytes decode exactly if table and entries lie inside them and every string is valid, and then to the strings their entries point at |
| `Args.LayOut` | noli/src/args.rs:26-33 | the loop records each argument's place and concatenates them null-terminated |
| `Args.SerializeArgs` | noli/src/args.rs:24-45 | both loops yield the specified block |
| `Args.DeserializeArgs` | noli/src/args.rs:47-74 | the loop decodes any data as specified, error cases included |
| `Elf.RangeInside` | os/src/memory.rs:38-45 | a range is found in a region exactly if it starts and ends inside, at its offset |
| `Elf.SpanCovers` | os/src/loader.rs:239-249 | the folded and masked address range contains every segment |
| `Elf.SpanExactly` | os/src/loader.rs:239-249 | the range starts at the lowest aligned segment start and ends at the highest aligned segment end |
| `Elf.SegmentFits` | os/src/loader.rs:216-229 | copying a well-formed segment fails only for the sake of its file bytes |
| `Elf.LastWriteWins` | os/src/loader.rs:216-313 | of several writes the last one covering a byte decides it |
| `Elf.UnwrittenStays` | os/src/loader.rs:216-313 | a byte no write covers keeps its value |
| `ElfRelocs.LoadSegmentsExactly` | os/src/loader.rs:231-238 | the loaded segments are the segments of type LOAD, all of them and in file order |
| `ElfRelocs.FindDynamicExactly` | os/src/loader.rs:264-267 | the dynamic segment is the first of its type, none exactly if there is none |
| `ElfRelocs.FindTagExactly` | os/src/loader.rs:275-286 | a tag's value is that of the first 16-byte entry with the tag, none exactly if no entry has it |
| `ElfRelocs.RelocTableExactly` | os/src/loader.rs:294-297 | entry i is read at `start + i * size` as address, info and addend, the words at offsets 0, 8 and 16; it fails exactly on entries shorter than 24 bytes |
| `ElfRelocs.RelocationsExactly` | os/src/loader.rs:264-297 | reading the relocations fails exactly if a table is out of range or its entries too short, and gives the entries described by the bytes of file and image |
| `ElfRelocs.RelocsUnique` | os/src/loader.rs:264-297 | that description determines the relocations |
| `ElfImage.SegmentWritesExactly` | os/src/loader.rs:216-229 | copying succeeds exactly if each segment lies in the address range, has its file bytes in the file, and no more of them than it has space |
| `ElfImage.RelocWritesExactly` | os/src/loader.rs:298-309 | relocating succeeds exactly if each entry has the relative type, an addend in a segment whose new address fits in 64 bits, and a word in the address range |
| `ElfImage.OneReloc` | os/src/loader.rs:39-46 | a relocation succeeds exactly if it has the relative type, its addend lies in a segment and its word in the range, and stores region start plus the addend's distance from the range start |
| `ElfImage.CopiedFileByte` | os/src/loader.rs:216-229 | each file byte of a segment lands at its distance from the range start |
| `ElfImage.CopiedZero` | os/src/loader.rs:250-255 | every other byte of the region, beyond the address range too, is zero after copying |
| `ElfImage.UnrelocatedByte` | os/src/loader.rs:298-309 | relocation changes relocated words only |
| `ElfImage.RelocatedWord` | os/src/loader.rs:298-309 | each relocated word reads as the address where its addend now lies |
| `ElfImage.LoadStages` | os/src/loader.rs:230-313 | a successful `load` is copying the segments of type LOAD, then reading from the copied image the relocations its bytes describe, then relocating |
| `ElfImage.LoadReads` | os/src/loader.rs:250-297 | `load` reads its relocations from the image that holds file bytes and zeros, and they are those its bytes describe |
| `ElfImage.LoadNeeds` | os/src/loader.rs:230-313 | what a successful `load` needs: a LOAD segment, segments that can be copied, readable tables |
| `ElfImage.LoadSucceedsExactly` | os/src/loader.rs:230-313 | under that and with segments apart, `load` succeeds exactly if every relocation can be carried out |
| `ElfImage.LoadIsFaithful` | os/src/loader.rs:230-313 | after a successful `load` of segments and words that do not overlap, every byte of the region is a relocated word's, a file byte's or zero, at its specified place, with the relocations that the bytes of the file ask for; the region is the address range rounded up to pages |
| `Loader.CopyInto` | os/src/loader.rs:216-229 | copying bytes into the region in place |
| `Loader.LoadSegment` | os/src/loader.rs:216-229 | copies the file bytes or fails as specified without touching the region |
| `Loader.CopySegments` | os/src/loader.rs:253-255 | the loop over segments applies all their writes in order, or fails |
| `Loader.ResolveVaddr` | os/src/loader.rs:39-46 | the loop finds the first segment that contains the address |
| `Loader.RelocateOne` | os/src/loader.rs:79-83 | writes one relocated word or fails as specified without touching the region |
| `Loader.Relocate` | os/src/loader.rs:298-309 | the loop over relocations applies all their writes in order, or fails |
| `Loader.LoadElf` | os/src/loader.rs:230-313 | the in-place `load` succeeds exactly when specified and leaves the specified image |

## Left out

- Inline assembly, context switches, GDT, IDT, APIC, HPET, port I/O, PCI and EFI calls: effects of hardware without logic of their own.
- The executor, the scheduler, USB, network card and HID drivers, DNS, DHCP and ARP: they pass data on without an invariant of their own.
- `EventRing::pop_for_slot` and `pop_for_trb`: the waiters replace them.
- Calling `fill_ring` on a partly used ring: the drivers call it once, while setting up an endpoint.
- Runs of the command ring that push with more than 13 commands outstanding or push a Link TRB: both are the caller's obligation, as stated above.
- TCP retransmission, windows, RST, out-of-order data and the states `handle_rx` skips; the checksum of the IPv4 header, which is set on sending; calling `open` after it has succeeded or on an established socket.
- Reordering of memory accesses: software and controller see each other's 32- and 64-bit writes in program order.
- Ring mode, glyphs drawn at other sizes, window decoration and the contents of the font, which is a parameter; printing into text areas too small for one character.
- UTF-8: validity of a byte string is a parameter of the argument decoder, and strings are sequences of character codes.
- `Elf::parse`: the model starts from the parsed headers. Allocation failure in the loader and execution of the loaded program.
- 64-bit overflow of `phys + addr` in `create_mapping`, of the products in `bitmap_draw_line`, of range sums in the loader and of sizes read from an argument block: integers are unbounded there.
- Allocation of page-table pages by the heap: the table draws on a pool of free pages, and running out of it, a panic in the source, ends the run.
- Aliasing of memory between heap, page tables and rings: each module has its own memory.
- Paging.PML4.SetPage: says nothing about the tables when memory runs out, because the source panics there.
- Paging.PML4.CreateMapping: says nothing about the tables when memory runs out, because the source panics there.
- Packet.GenTcpPacket: only for payloads whose sum fits in 32 bits, about 128 KiB, beyond which the source overflows.
- Checksum.InternetChecksumGenerator.Feed: only while the 32-bit sum cannot overflow, as in the source.
- Segments that reach an established socket and are not the peer's own.
