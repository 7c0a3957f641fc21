# Models of the bnx2 and igb network drivers

These Dafny files model the parts of the bnx2 and igb drivers that are
algorithms rather than register settings, and prove what those parts are for.
`dafny verify dfyconfig.toml` checks all of it.

**Transmit ring (bnx2).** `RingIndex` relates the free-running 16-bit indices,
which skip one value in 256, to descriptor counts (`Modulo` has the arithmetic
below it). `TxIndex` has the two index computations of the transmit path,
`TxPackets` what the software ring holds for a packet. `TxProtocol` is a state machine
in which `bnx2_start_xmit`, `bnx2_tx_int` and the device interleave access by access;
its inductive invariant yields the safety theorems of `TxSafety`. `TxRingSize` shows which configured ring sizes the
free-space estimate supports, `TxStaleRead` the one evaluation of it that can be
wrong, `TxCall` why a call of either routine ends where it does, `TxTeardown` what
becomes of packets in flight when the interface is taken
down. `TxRing` is the same code as a class over its two arrays, each routine
running to completion.

**Receive rings (bnx2).** `RxIndex` proves that the driver's index arithmetic over
several ring pages is the device's walk along the chained pages; `RxSizing` is the
choice of those pages. `RxQueue` reads a ring as a queue of items, each with its
own DMA mapping and bus address. `RxFrames` says where the device puts a frame and
what it reports, how the frame is put together again, and how many page descriptors
it moves the driver and the device on.
`RxRing` is the receive path as a class over its four arrays: every path through
`bnx2_rx_int`, with an allocation or a mapping allowed to fail at every place.
`RxDelivery` says what goes up the stack in a poll, and in whose pages, over any number
of polls.

**Polling (bnx2).** `MsixPoll` interleaves the MSI-X poll loop with a device that
posts status blocks at any moment.

**NVRAM (bnx2).** `Nvram` specifies the flash as a byte array behind an address
translation, with bit-clearing writes, page erasure and a write-enable latch, and the
commands a read or write may issue. `NvramAccess` has the driver's routines, proved
byte-exact and command-exact against it.

**Counters (bnx2).** `Statistics` is the saving of 64-bit counters kept in halves.

**Semaphores (igb).** `SwFwSync` is a state machine of any number of ports and a
firmware taking SW_FW_SYNC resources under the SWSM semaphore, `SwFwOutcome` when
they succeed.

**Checksums and filters (igb).** `NvmChecksum` has the EEPROM checksums per region
and what they detect; `FilterTables` (with `Bits`) the multicast and VLAN tables.

## What was found

- `bnx2_tx_avail` is sound only for the default ring size. For every smaller size
  that `bnx2_set_ringparam` accepts, a run fills the ring across the link slot, the
  queue is never stopped after that, and the slots of packets in flight are written
  over (`TxRingSize.Overwrites`, `TxRingSize.RespectedIffDefault`,
  `TxIndex.AvailWrapsIff`).
- The doorbell is rung before `tx_prod` is stored (bnx2.c:6647-6652). Between the two,
  `tx_cons` can overtake `tx_prod` (`TxSafety.TxConsMayOvertakeTxProd`,
  `TxSafety.OvertakesIff`), and the unlocked test of `bnx2_tx_int` (bnx2.c:2919) can
  find up to 19 descriptors free that are not (`TxStaleRead.StaleRead`,
  `TxSafety.AvailReadIs`). Nothing comes of it (`TxSafety.StaleReadIsHarmless`,
  `TxSafety.EveryWakeIsRight`).
- `bnx2_free_tx_skbs` steps from slot to slot with `j++` (bnx2.c:5450-5452). For a packet
  across the link slot it unmaps what the link slot holds and leaves the packet's
  last mapping in force (`TxTeardown.FreesAtRest`, `TxTeardown.MappingLeft`).
- `pg_ring_used` is not cleared between the frames of a poll (bnx2.c:3137, 3193,
  3207). A damaged frame without pages that follows a frame with pages makes the
  driver recycle pages the device has not filled, and the lead stays in all later
  polls, until the rings are set up anew (bnx2.c:5129). Every frame with pages behind
  it goes up in page descriptors that are not its own: `RxDelivery.OwnDescriptorsIff`
  says exactly when, over every run, and `RxDelivery.LeadIff` when the driver is ahead
  after any polls. As long as the lead is less than the pages posted, the pages are
  then not the frame's either (`RxDelivery.OwnPagesIff`). `RxRing.StickyPoll` is a poll
  of three frames, `RxRing.StickyTwice` a further poll with nothing but good frames
  whose first goes up in a wrong page.
- `bnx2_nvram_write` does not look at whether writing could be enabled again after a
  page was erased (bnx2.c:4632). When it could not, the page stays all ones, its
  other bytes included, and the result is 0. `NvramAccess.Device.Write` says exactly
  when the result is 0, which pages are lost then, and that the data is stored if and
  only if those were to be all ones anyway; `NvramAccess.EnablesAre` says when none is
  lost, and `NvramAccess.PageLost` is a write that loses a page.
- Non-buffered NVRAM writes carry no FIRST flag, because the page read at
  bnx2.c:4615 has used it up; `Nvram.PageCmds` says so.
- The comment at e1000_mac.c:364 gives 0x163 as the hash of its example for filter
  type 2; the code computes 0x58D (`FilterTables.Examples`). The model follows the
  code.
- The search for `bit_shift` in `igb_hash_mc_addr` ends only for 8, 16, 32, 64 and
  128 registers, among 1 to 128 (`FilterTables.ShiftLoopEndsIff`).

## Model

| member | source | states |
|---|---|---|
| RingIndex.NextBdGuardIsTheMask | drivers/bnx2-2.1.11/bnx2.h:6513-6521 | the bit tests of NEXT_TX_BD, NEXT_RX_BD and TX_RING_IDX are the remainders that the model uses |
| RingIndex.NextIdx | drivers/bnx2-2.1.11/bnx2.h:6513-6523 | one step of the index macro is one descriptor, across link slots and across the wrap at 2^16 |
| RingIndex.AdvanceIdx | drivers/bnx2-2.1.11/bnx2.h:6513-6515 | k steps from the index of descriptor n reach the index of descriptor n + k |
| RingIndex.RingIdxOfIdx | drivers/bnx2-2.1.11/bnx2.h:6517-6517 | the slot of descriptor n is n modulo 255, so the link slot is never used |
| RingIndex.NormalizeIs | drivers/bnx2-2.1.11/bnx2.c:2834-2835 | after n descriptors the device may write the index of the slot behind the last of them, be it a link, or that of the next descriptor: either way the driver reads the index of descriptor n, and it was a link slot exactly when the two differ |
| RingIndex.IdxInjective | drivers/bnx2-2.1.11/bnx2.c:2851-2851 | comparing two indices within a lap compares descriptor counts |
| RingIndex.IdxDiff | drivers/bnx2-2.1.11/bnx2.c:277-278 | the index distance of a window is its length, plus one when it crosses the link slot |
| RingIndex.IdxDistance | drivers/bnx2-2.1.11/bnx2.c:277-278 | the same for any window short of the wrap at 2^16, plus one for each crossing |
| TxIndex.AvailSound | drivers/bnx2-2.1.11/bnx2.c:267-284 | with the default size the free space never underflows, is exact or one too low, and exact precisely when the ring is full or the window does not cross the link slot |
| TxIndex.AvailWrapsIff | drivers/bnx2-2.1.11/bnx2.c:267-284 | for any ring size, however overfilled, the estimate wraps to a huge value if and only if more descriptors than the size are in flight, or a ring smaller than the default is just full across the link slot |
| TxIndex.AvailMonotone | drivers/bnx2-2.1.11/bnx2.c:267-284 | completions never lower the free space and postings never raise it |
| TxIndex.LastIdxIsAdvance | drivers/bnx2-2.1.11/bnx2.c:2867-2874 | the closed form of last_idx is NEXT_TX_BD applied nr_frags + 1 times, at every position |
| TxIndex.NotYetPassedIff | drivers/bnx2-2.1.11/bnx2.c:2866-2878 | the signed 16-bit comparison is positive exactly when the device has yet to pass the packet |
| TxPackets.NextToRelease | drivers/bnx2-2.1.11/bnx2.c:2851-2878 | when the indices differ there is a packet to release, and the partial-completion test is right for TSO and other packets |
| TxPackets.SlotsFrame | drivers/bnx2-2.1.11/bnx2.c:6588-6612 | writing a slot outside the packets in flight leaves what the ring holds for all of them |
| TxProtocol.XmitKeepsInv | drivers/bnx2-2.1.11/bnx2.c:6540-6692 | every single step of bnx2_start_xmit, its mapping failures included, keeps the invariant of the interleaved system |
| TxProtocol.TxIntKeepsInv | drivers/bnx2-2.1.11/bnx2.c:2839-2928 | every single step of bnx2_tx_int keeps it |
| TxProtocol.DeviceKeepsInv | drivers/bnx2-2.1.11/bnx2.c:2825-2837 | every completion by the device, a partly completed TSO packet and an index left on a link slot included, keeps it |
| TxProtocol.InitInv | drivers/bnx2-2.1.11/bnx2.c:5111-5131 | the cleared ring satisfies it |
| TxProtocol.XmitNeverFull | drivers/bnx2-2.1.11/bnx2.c:6544-6550 | the branch "ring full when queue awake" is unreachable |
| TxProtocol.TxIntNeverFaults | drivers/bnx2-2.1.11/bnx2.c:2858-2859 | bnx2_tx_int never finds a NULL skb where a packet should begin |
| TxProtocol.OwnedAppend | drivers/bnx2-2.1.11/bnx2.c:6637-6645 | handing a packet to the device moves its mappings and its buffer from bnx2_start_xmit to the ring, none lost or duplicated |
| TxProtocol.OwnedUnmap | drivers/bnx2-2.1.11/bnx2.c:2880-2897 | each unmapping removes a mapping that is in force and is the packet's next one |
| TxProtocol.OwnedFree | drivers/bnx2-2.1.11/bnx2.c:2899-2901 | freeing completes the release of exactly the oldest packet |
| TxSafety.NoLostWakeup | drivers/bnx2-2.1.11/bnx2.c:2908-2925 | in every reachable state, a stopped queue with more than tx_wake_thresh free is about to be woken by one of the two sides |
| TxSafety.WhenQuiescent | drivers/bnx2-2.1.11/bnx2.c:6654-6665 | with neither routine running, a stopped queue has at least 127 descriptors outstanding and an awake one has room for the largest packet |
| TxSafety.NeverOverfull | drivers/bnx2-2.1.11/bnx2.c:6544-6550 | over every run at most 255 descriptors are in flight, and neither the full-ring branch nor a NULL skb is met |
| TxSafety.AvailReadIs | drivers/bnx2-2.1.11/bnx2.c:267-284 | under every interleaving an evaluation of the free space gives the true one or one less, measured against what the device has been given; only the unlocked one of bnx2_tx_int can fall between doorbell and store, and is then too high by no more than the packet in question |
| TxSafety.AvailReadIsSoundIff | drivers/bnx2-2.1.11/bnx2.c:267-284 | exactly which evaluations are sound |
| TxSafety.StaleReadIsHarmless | drivers/bnx2-2.1.11/bnx2.c:2918-2925 | after an unsound evaluation nothing has changed but the program counter, and not to wake was right |
| TxSafety.EveryWakeIsRight | drivers/bnx2-2.1.11/bnx2.c:2920-2923 | either side wakes only a stopped queue, with more than tx_wake_thresh descriptors truly free |
| TxSafety.OvertakesIff | drivers/bnx2-2.1.11/bnx2.c:6647-6652 | over every run tx_cons accounts for more than tx_prod if and only if everything is reclaimed between doorbell and store |
| TxSafety.TxConsMayOvertakeTxProd | drivers/bnx2-2.1.11/bnx2.c:6645-6652 | a run in which tx_cons passes tx_prod between doorbell and store, where an evaluation would exceed four billion |
| TxStaleRead.StaleRead | drivers/bnx2-2.1.11/bnx2.c:2918-2919 | a run in which the unlocked test of bnx2_tx_int finds 255 descriptors free while the device has 19 to send |
| TxSafety.ReleasesInOrder | drivers/bnx2-2.1.11/bnx2.c:2880-2901 | releasing the first j packets frees their buffers and undoes their mappings once each in posting order |
| TxSafety.ReleasedExactlyOnceInOrder | drivers/bnx2-2.1.11/bnx2.c:2839-2928 | over every run what was freed and unmapped is exactly the posted packets in order, plus a prefix of the one in work |
| TxSafety.ReleasedOnlyWhenCompleted | drivers/bnx2-2.1.11/bnx2.c:2865-2878 | no packet is released before the device has completed all of it, and tx_cons rests on packet boundaries |
| TxSafety.NothingLeaks | drivers/bnx2-2.1.11/bnx2.c:6668-6691 | between calls the driver owns exactly the buffers and mappings of packets posted and not released, also after failed mappings |
| TxCall.StopsOnlyWhen | drivers/bnx2-2.1.11/bnx2.c:2851-2909 | under every interleaving a call of bnx2_tx_int releases no more packets than its budget; it stops before that only at a packet not completed when it last read, and when nothing of that packet was, only after a read behind its latest release, with everything released that was completed then |
| TxCall.HwTxConsIsRead | drivers/bnx2-2.1.11/bnx2.c:2908-2908 | outside of a call, hw_tx_cons is the index that was read last |
| TxCall.MappedIsPosted | drivers/bnx2-2.1.11/bnx2.c:6540-6652 | from every reachable entry of bnx2_start_xmit, a packet whose mappings all succeed is posted and rung for, as the last one |
| TxCall.DoorbellIsPosted | drivers/bnx2-2.1.11/bnx2.c:6647-6648 | over every run the index last given to the device is that behind the last posted packet |
| TxRingSize.Overfill | drivers/bnx2-2.1.11/bnx2.c:7315-7336 | for every accepted size below the default, runs with any number of descriptors in flight from the size up to 0xFE00 |
| TxRingSize.Overwrites | drivers/bnx2-2.1.11/bnx2.c:6588-6612 | for every such size, a run in which the slot of the oldest packet in flight has the buffer of another one |
| TxRingSize.RespectedIffDefault | drivers/bnx2-2.1.11/bnx2.c:8275-8275 | over the accepted sizes, each of these holds in every run if and only if the size is the default: the size bounds the descriptors in flight; the 255 slots do; the ring keeps what it holds for every packet in flight |
| TxTeardown.FreeTxSkbs | drivers/bnx2-2.1.11/bnx2.c:5432-5459 | the loop over the ring ends, with the releases and the ring that FreeFrom and ClearFrom give |
| TxTeardown.NextKeepsHeads | drivers/bnx2-2.1.11/bnx2.c:6588-6612 | every step of either routine and of the device keeps it that only the first slot of a packet has a buffer |
| TxTeardown.LoadedAtRest | drivers/bnx2-2.1.11/bnx2.c:5432-5440 | with neither routine running, the ring holds exactly the packets in flight |
| TxTeardown.FreesAtRest | drivers/bnx2-2.1.11/bnx2.c:5432-5459 | after any run exactly the buffers that the driver owns are freed, once each, and none is left on the ring; exactly the mappings in force are undone if and only if no packet in flight lies across the link, or by chance its last mapping equals that of the link slot |
| TxTeardown.MappingLeft | drivers/bnx2-2.1.11/bnx2.c:5450-5452 | a run after which a mapping stays in force |
| TxRing.Ring.constructor | drivers/bnx2-2.1.11/bnx2.c:5111-5131 | the cleared ring is valid, empty and awake |
| TxRing.Ring.StartXmit | drivers/bnx2-2.1.11/bnx2.c:6525-6692 | a packet is posted whole or leaves no trace; busy exactly when the free space is too small; the queue is stopped exactly when the largest packet might not fit |
| TxRing.Ring.MapParts | drivers/bnx2-2.1.11/bnx2.c:6588-6643 | software and hardware descriptors of all parts are in place, START on the first and END on the last, or everything is undone; no other slot has a buffer |
| TxRing.Ring.Publish | drivers/bnx2-2.1.11/bnx2.c:6645-6665 | the new packet is part of the valid ring |
| TxRing.Ring.Unwind | drivers/bnx2-2.1.11/bnx2.c:6668-6691 | the error path undoes exactly the mappings made, with indices stepped over the link slot, and leaves no buffer in the slots it used |
| TxRing.Ring.ReleasePacket | drivers/bnx2-2.1.11/bnx2.c:2880-2901 | the oldest packet leaves the ring, its mappings undone in order, its buffer freed and gone from its slot, and the index moves to the next packet |
| TxRing.Ring.TxInt | drivers/bnx2-2.1.11/bnx2.c:2839-2928 | exactly the packets that the device had completed by the last read of the status block are released, up to the budget, also when the index read is that of a link slot; unless a packet is complete in part, it ends only after a fresh read has shown nothing new; the queue wakes when it may |
| TxRing.Ring.Reclaim | drivers/bnx2-2.1.11/bnx2.c:2908-2925 | publishing the indices keeps the ring valid, and a stopped queue wakes exactly above the threshold |
| RxIndex.SlotParts | drivers/bnx2-2.1.11/bnx2.h:6523-6527 | RX_RING and RX_IDX of the n-th masked index are the page and the position of descriptor n |
| RxIndex.MaskIsTheBitMask | drivers/bnx2-2.1.11/bnx2.h:6523-6524 | masking with 256 times the pages less one is the remainder that the model uses |
| RxIndex.SlotsDiffer | drivers/bnx2-2.1.11/bnx2.h:6519-6524 | descriptors within a lap have different slots, none of them a link, and one lap apart they coincide |
| RxIndex.NextSlot | drivers/bnx2-2.1.11/bnx2.c:2979-2979 | stepping a masked index and masking again follows the unmasked index |
| RxIndex.RxIdxInjective | drivers/bnx2-2.1.11/bnx2.c:3158-3158 | within a lap of the largest ring, comparing indices compares descriptor counts |
| RxIndex.InitRxbdRings | drivers/bnx2-2.1.11/bnx2.c:5195-5217 | every descriptor gets the buffer size and the START and END flags, and the pages are linked in a circle |
| RxIndex.WalksAgree | drivers/bnx2-2.1.11/bnx2.c:5195-5217 | after n descriptors the device, following the links, is on the page and slot that the driver computes from n steps of NEXT_RX_BD |
| RxSizing.FindMaxRing | drivers/bnx2-2.1.11/bnx2.c:5361-5378 | the search ends with the least power of two of ring pages that holds the descriptors |
| RxSizing.HasBitIsTheMask | drivers/bnx2-2.1.11/bnx2.c:5371-5372 | the bit test of the search is the quotient that the model uses |
| RxSizing.SetRxRingSize | drivers/bnx2-2.1.11/bnx2.c:5380-5417 | frames are split exactly when a whole one would need more than a page and the chip can; both rings get the least number of pages that holds what will be posted, the page ring as far as the chip allows, and the thresholds fit the buffer size |
| RxSizing.SplitsFrom | drivers/bnx2-2.1.11/bnx2.c:5388-5395 | one MTU from which on frames are split, the rounding of the buffer included |
| RxSizing.RoomForFrame | drivers/bnx2-2.1.11/bnx2.c:5385-5412 | unless frames are split, the buffer has room for exactly a tagged frame of the full MTU with its CRC, and no such frame is over rx_jumbo_thresh; otherwise for 128 bytes |
| RxSizing.RingPages | drivers/bnx2-2.1.11/bnx2.c:5413-5414 | up to 255 descriptors take one page, up to 510 two and up to 1020 four |
| RxSizing.PagesForIs | drivers/bnx2-2.1.11/bnx2.c:5396-5396 | the number of pages holds n bytes, and one less does not |
| RxSizing.ChosenFits | drivers/bnx2-2.1.11/bnx2.c:5412-5416 | the page counts chosen are ones that an index can be masked for, and both rings have room for what is posted |
| RxFrames.PagesSuffice | drivers/bnx2-2.1.11/bnx2.c:5396-5400 | the pages set aside are enough for as many frames as there are buffers, each with up to MTU - 40 bytes in pages, unless the chip's limit cuts them short |
| RxFrames.HdrLenIsPlacement | drivers/bnx2-2.1.11/bnx2.c:3188-3195 | pg_ring_used is set by exactly the frames of which the device has put something in pages, and hdr_len is then what it has put in the buffer |
| RxQueue.Taken | drivers/bnx2-2.1.11/bnx2.c:3170-3180 | the head slot holds the oldest item with its own mapping, and emptying it leaves the rest of the queue intact |
| RxQueue.Appended | drivers/bnx2-2.1.11/bnx2.c:2778-2784 | filling the slot at the producer index appends the item, with the mapping and the bus address that belong to it |
| RxQueue.Recycled | drivers/bnx2-2.1.11/bnx2.c:2957-2979 | moving a slot from consumer to producer index rotates the queue by one, also when the ring is full or empty |
| RxQueue.RotatedByIs | drivers/bnx2-2.1.11/bnx2.c:2957-2980 | recycling n items puts the first n behind the others |
| RxQueue.RotatedByKeeps | drivers/bnx2-2.1.11/bnx2.c:2930-2984 | recycling any number of items, even more than are posted, keeps exactly the same items |
| RxQueue.DeviceFindsPosted | drivers/bnx2-2.1.11/bnx2.c:2755-2789 | what the device finds when its walk comes to descriptor n is the item posted n-th, at that item's own address |
| RxFrames.OneFrame | drivers/bnx2-2.1.11/bnx2.c:3197-3215 | for one frame the driver moves on in the page ring as the device did, except for a damaged frame without pages while pg_ring_used is set |
| RxFrames.InStepIff | drivers/bnx2-2.1.11/bnx2.c:3137-3215 | in a poll driver and device move on equally far in the page ring if and only if no damaged frame without pages came after a frame with pages; the driver never moves on less |
| RxFrames.StickyFlag | drivers/bnx2-2.1.11/bnx2.c:3207-3213 | two frames after which the driver has moved on one page further than the device |
| RxFrames.LaidOutBytes | drivers/bnx2-2.1.11/bnx2.c:3047-3110 | the layout accounts for every byte of the frame once, and no fragment is empty or longer than a page |
| RxDelivery.IntactBytes | drivers/bnx2-2.1.11/bnx2.c:3047-3110 | a buffer goes up with the bytes that the device put in it, less what of the CRC lay there, and its fragments with those that it put in pages, less the rest of the CRC |
| RxDelivery.OneMore | drivers/bnx2-2.1.11/bnx2.c:3167-3292 | a frame that goes up joins those delivered, in order and once; what is known of the others stays |
| RxDelivery.LeadIff | drivers/bnx2-2.1.11/bnx2.c:3137-3215 | after any polls since the rings were set up, driver and device are at the same page descriptor if and only if no such frame came in any of them; the driver is never behind |
| RxDelivery.OwnDescriptorsIff | drivers/bnx2-2.1.11/bnx2.c:3193-3215 | a frame goes up in the page descriptors that the device filled for it if and only if no such frame came before it, in its poll or in any earlier one |
| RxDelivery.OwnPagesIff | drivers/bnx2-2.1.11/bnx2.c:3193-3215 | the same of the pages themselves, as long as the driver's lead is less than the number of pages posted |
| RxDelivery.OwnPagesWithoutStray | drivers/bnx2-2.1.11/bnx2.c:3193-3215 | without such frames in any poll so far, the pages are the frame's own |
| RxDelivery.WrongPage | drivers/bnx2-2.1.11/bnx2.c:3207-3213 | three frames, after polls without such frames, of which the third, when it goes up, goes up in the page descriptor behind its own and in a page that is not its own |
| RxRing.RxRing.constructor | drivers/bnx2-2.1.11/bnx2.c:5235-5249 | both rings start empty, linked and consistent; every descriptor has START and END and the length of what is posted there, rx_buf_use_size in one ring and PAGE_SIZE in the other, and keeps them from then on |
| RxRing.RxRing.InitRxRing | drivers/bnx2-2.1.11/bnx2.c:5219-5312 | as many pages and buffers are posted as asked for unless the kernel refuses one, and the rings are consistent either way |
| RxRing.SetUp | drivers/bnx2-2.1.11/bnx2.c:7284-7295 | for any MTU and ring size the chosen rings can be allocated, linked and filled, or there is not enough memory and nothing else fails; unless the kernel refuses one, every buffer and page chosen is posted |
| RxRing.RxRing.AllocRxPage | drivers/bnx2-2.1.11/bnx2.c:2714-2737 | when the kernel grants memory and mapping a new page is appended to the ring, otherwise nothing in it changes |
| RxRing.RxRing.AllocRxSkb | drivers/bnx2-2.1.11/bnx2.c:2755-2789 | when the kernel grants memory and mapping a new buffer is appended and rx_prod_bseq advanced, otherwise nothing in the ring changes |
| RxRing.RxRing.ReuseRxSkb | drivers/bnx2-2.1.11/bnx2.c:2986-3015 | the buffer taken from the head is the newest of the ring, with its old mapping and address, even in the same slot |
| RxRing.RxRing.ReuseRxSkbPages | drivers/bnx2-2.1.11/bnx2.c:2930-2984 | the oldest pages become the newest, the page of a failed buffer is put back first and its other pages are freed, each once |
| RxRing.RxRing.SwapPage | drivers/bnx2-2.1.11/bnx2.c:3077-3101 | the oldest page goes up and a new one is posted; without one, the slot can be restored |
| RxRing.RxRing.RxPages | drivers/bnx2-2.1.11/bnx2.c:3041-3113 | on every path both page indices advance by the pages of the frame and as many pages stay posted; on success header and fragments are exactly the frame in the oldest pages, the CRC cut off wherever it lay; a header that is all of the frame and its CRC succeeds and keeps the CRC |
| RxRing.RxRing.SwapSkb | drivers/bnx2-2.1.11/bnx2.c:3025-3039 | a new buffer is posted for the one that goes up, or that one is posted again |
| RxRing.RxRing.RxSkb | drivers/bnx2-2.1.11/bnx2.c:3017-3115 | both rings keep their numbers of posted items, and buffers and pages go up exactly on success |
| RxRing.RxRing.RxOne | drivers/bnx2-2.1.11/bnx2.c:3167-3292 | delivered, copied, dropped or failed, a frame leaves both rings coherent with as many items posted; only an undamaged frame is delivered, in the buffer at the head of the ring if and only if it is not short enough to be copied, in the pages from the driver's place in the page ring on, with header and pages as the device has placed it |
| RxRing.RxRing.GoUp | drivers/bnx2-2.1.11/bnx2.c:3263-3292 | a frame is delivered if and only if it is not too long or is tagged; otherwise it is freed with its pages |
| RxRing.RxRing.RxInt | drivers/bnx2-2.1.11/bnx2.c:3131-3321 | every frame up to the last index read is dealt with unless the budget ends the poll, and the poll ends only after reading the index again has shown nothing new; those delivered are acceptable frames in order, once each, also when an index read is that of a link slot; frame n is in the n-th buffer unless it is short enough to be copied, laid out as the device has placed it, less its CRC, in the page descriptors that the driver's count gives; any other acceptable frame answers to a refusal by the kernel; the page ring has moved by the frames' page counts, so that its place is that of all polls so far, and the device has been told all three indices |
| RxRing.StickyPoll | drivers/bnx2-2.1.11/bnx2.c:3131-3321 | a poll of those three frames in which the third does go up, in a page that is not its own |
| RxRing.StickyTwice | drivers/bnx2-2.1.11/bnx2.c:3131-3321 | the poll after it, in which every frame is good and the first goes up in a page that is not its own |
| RxRing.BseqStep | drivers/bnx2-2.1.11/bnx2.c:2786-2786 | rx_prod_bseq is rx_buf_use_size times the buffers ever posted, modulo 2^32 |
| RxRing.GatherTail | drivers/bnx2-2.1.11/bnx2.c:3057-3076 | when the last page holds only CRC, cutting the tail leaves exactly the frame |
| RxRing.GatherPage | drivers/bnx2-2.1.11/bnx2.c:3083-3109 | attaching a page keeps the lengths in agreement, the CRC taken off on the last page |
| RxRing.OwnedReplaced | drivers/bnx2-2.1.11/bnx2.c:3087-3101 | exchanging the item at hand for a new one keeps every item accounted for: posted and mapped, or gone up |
| MsixPoll.NextKeepsInv | drivers/bnx2-2.1.11/bnx2.c:3511-3540 | every step of the poll loop, the interrupt and the device keeps the invariant |
| MsixPoll.MissesNothing | drivers/bnx2-2.1.11/bnx2.c:3402-3412 | whenever the driver rests unmasked with no interrupt on its way, both rings are at the descriptors that the device has completed |
| MsixPoll.Rests | drivers/bnx2-2.1.11/bnx2.c:3511-3540 | wherever the driver is, when the device posts no more it rests within 18 steps, unmasked, with all taken notice of that the device had done |
| MsixPoll.WrapIsMissed | drivers/bnx2-2.1.11/bnx2.c:3520-3536 | a run in which 2^16 posts between read and acknowledgement leave work unnoticed |
| MsixPoll.MissesNothingIff | drivers/bnx2-2.1.11/bnx2.c:3511-3540 | no work is ever missed if and only if fewer than 2^16 posts fit between reading status_idx and acknowledging it |
| Nvram.TranslateIsCell | drivers/bnx2-2.1.11/bnx2.c:4248-4254 | the address that the driver computes is the cell that the byte is in |
| Nvram.CellIs | drivers/bnx2-2.1.11/bnx2.c:4248-4254 | byte r of page p of a translated flash is in the r-th cell of the p-th physical page, and byte i of any other flash in cell i |
| Nvram.TranslateInjective | drivers/bnx2-2.1.11/bnx2.c:4248-4254 | the address translation is strictly increasing, so different bytes are different cells |
| Nvram.LogicalOverlay | drivers/bnx2-2.1.11/bnx2.c:4284-4299 | writing a translated dword changes exactly those four bytes of the logical array |
| Nvram.LogicalErase | drivers/bnx2-2.1.11/bnx2.c:4200-4237 | erasing a page changes exactly that page |
| Nvram.FlashTableOk | drivers/bnx2-2.1.11/bnx2.c:164-260 | every flash of the driver's tables satisfies the assumptions made here at its size in the table |
| Nvram.SharedSizeOk | drivers/bnx2-2.1.11/bnx2.c:4400-4406 | so does every size that shared memory can give, on the flash with 264-byte pages if and only if it is at most 0x840000 |
| Nvram.PageRewritten | drivers/bnx2-2.1.11/bnx2.c:4598-4682 | reading a page, erasing it and writing it back around new data is storing the data |
| Nvram.CoversIsOverlay | drivers/bnx2-2.1.11/bnx2.c:4535-4563 | storing the aligned copy is storing the unaligned data |
| Nvram.BurstJoin | drivers/bnx2-2.1.11/bnx2.c:4597-4682 | adjacent bursts join to one with FIRST and LAST only at the ends |
| Nvram.BurstIs | drivers/bnx2-2.1.11/bnx2.c:4475-4501 | the k-th command of a burst has the k-th dword; FIRST is on the first only and LAST on the last only |
| Nvram.PageCmdsAre | drivers/bnx2-2.1.11/bnx2.c:4597-4682 | buffered flash gets a page's dwords in one burst from FIRST to LAST; other flash a read of the page from FIRST to LAST, an erase, and a write of the page without FIRST |
| Nvram.PageSplit | drivers/bnx2-2.1.11/bnx2.c:4574-4588 | each round of the page loop stores the next piece of the range within one page of the device, and its commands are the next ones |
| NvramAccess.Device.ReadDword | drivers/bnx2-2.1.11/bnx2.c:4239-4281 | four logical bytes are read by one command, or nothing is stored |
| NvramAccess.Device.WriteDword | drivers/bnx2-2.1.11/bnx2.c:4284-4326 | four logical bytes are programmed by one command if the flash is enabled for writing; no other byte changes even on failure |
| NvramAccess.Device.ErasePage | drivers/bnx2-2.1.11/bnx2.c:4200-4237 | one page becomes all ones on enabled flash that needs it, which is then disabled; nothing happens on other flash |
| NvramAccess.Device.EnableWrite | drivers/bnx2-2.1.11/bnx2.c:4137-4164 | flash without write-enable commands needs nothing; otherwise one command, whose outcome decides the result and whether the latch is set |
| NvramAccess.Device.Read | drivers/bnx2-2.1.11/bnx2.c:4411-4519 | it returns 0 exactly when no wait has failed; then the buffer is exactly the bytes asked for and the commands are consecutive dwords with FIRST and LAST at the ends; nothing is ever stored behind them |
| NvramAccess.Device.WritePage | drivers/bnx2-2.1.11/bnx2.c:4597-4685 | it returns 0 exactly when no wait has failed and the first write-enable command was done; then the page has received its piece of the data, on buffered and on erase-first flash, or is all ones, exactly when the second such command left the flash without |
| NvramAccess.Device.WritePages | drivers/bnx2-2.1.11/bnx2.c:4573-4693 | the page loop ends; it returns 0 exactly when no wait has failed and every first write-enable command of a page was done; then the whole aligned range is stored, except that exactly the pages without the second one are all ones |
| NvramAccess.Device.Align | drivers/bnx2-2.1.11/bnx2.c:4530-4563 | unless a wait or the allocation fails, the aligned copy covers the data and agrees with the flash around it |
| NvramAccess.Device.Write | drivers/bnx2-2.1.11/bnx2.c:4522-4699 | it returns 0 exactly when no wait and no allocation has failed and the first write-enable command of every page was done; then the flash has seen exactly the expected commands and has the data, for any alignment, page count and flash kind, except that the pages not enabled again are all ones; so exactly the bytes of the range are the data if and only if those pages were to be all ones anyway; on failure nothing changes outside the pages of the range |
| NvramAccess.EnablesAre | drivers/bnx2-2.1.11/bnx2.c:4619-4632 | of the write-enable commands of a write, those with even numbers are the ones looked at, and no page is lost if and only if none of the others leaves the flash without |
| NvramAccess.PageLost | drivers/bnx2-2.1.11/bnx2.c:4632-4632 | a write within one page that returns 0 and leaves the whole page all ones |
| Nvram.BlankSameIff | drivers/bnx2-2.1.11/bnx2.c:4632-4632 | such a loss shows if and only if the page was not to be all ones anyway |
| Nvram.PieceStored | drivers/bnx2-2.1.11/bnx2.c:4634-4690 | one round of the page loop extends the stored range by its piece, or loses the page, whatever was lost before |
| Statistics.SaveStats | drivers/bnx2-2.1.11/bnx2.c:6714-6736 | each 64-bit counter is added modulo 2^64 through its halves and each other one modulo 2^32 |
| Statistics.Carry | drivers/bnx2-2.1.11/bnx2.c:6727-6732 | adding halves with the carry is adding the whole |
| Statistics.TotalsConserved | drivers/bnx2-2.1.11/bnx2.c:6714-6736 | over any number of save-then-clear rounds, saved plus live is all that was ever counted |
| Statistics.NarrowConserved | drivers/bnx2-2.1.11/bnx2.c:6733-6735 | the same for the counters of one word, modulo 2^32 |
| SwFwSync.AgentStepKeepsInv | drivers/igb-3.0.6/e1000_82575.c:727-789 | every register access of any port keeps the invariant of the shared registers |
| SwFwSync.FwStepKeepsInv | drivers/igb-3.0.6/e1000_82575.c:752-755 | every step of a firmware that obeys the same rule keeps it |
| SwFwSync.WriteSyncKeepsInv | drivers/igb-3.0.6/e1000_82575.c:767-787 | the write-back of SW_FW_SYNC uses a current copy and touches only bits that were free or the port's own |
| SwFwSync.SemaphoreIsExclusive | drivers/igb-3.0.6/e1000_mac.c:1035-1080 | over every run at most one port is between a successful get and its put, and then the firmware is not inside |
| SwFwSync.OwnershipIsExclusive | drivers/igb-3.0.6/e1000_82575.c:727-768 | no resource ever has two owners, firmware included, and the register says exactly who owns what |
| SwFwSync.OutcomeIsExact | drivers/igb-3.0.6/e1000_82575.c:727-789 | success changed exactly the bits asked for; failure left the caller with what it held, and not with the semaphore |
| SwFwOutcome.FailsOnlyWhenRefused | drivers/igb-3.0.6/e1000_82575.c:736-768 | over every run an acquire fails if and only if the reads of one get that found SMBI set, or the writes of SWESMBI that did not latch, were as many as the timeout, or the reads of SW_FW_SYNC that found a bit of the mask set as many as the attempts; a release that ends has released |
| SwFwOutcome.AloneIff | drivers/igb-3.0.6/e1000_82575.c:736-789 | a port left alone with nobody in the way has what it asks for after nine steps if and only if all of it is free, and has given back what it names likewise; otherwise it gives up after all its attempts with nothing changed |
| SwFwOutcome.AcquireRelease | drivers/igb-3.0.6/e1000_82575.c:727-789 | what a port left alone has acquired it may release, after which SW_FW_SYNC and what it holds are as before |
| SwFwOutcome.FirmwareIff | drivers/igb-3.0.6/e1000_82575.c:752-755 | the firmware, with nobody in its way, has what it asks for if and only if all of it is free |
| SwFwSync.SemaphoreIsReturned | drivers/igb-3.0.6/e1000_mac.c:1088-1097 | the semaphore bits are clear whenever no port is inside |
| NvmChecksum.ChangeOne | drivers/igb-3.0.6/e1000_82575.c:1824-1847 | changing a word breaks exactly the regions that contain it |
| NvmChecksum.DetectedIff82580 | drivers/igb-3.0.6/e1000_82575.c:1891-1920 | in a valid image a changed word is detected if and only if its region is checked, clearing the compatibility bit included |
| NvmChecksum.DetectedIffI350 | drivers/igb-3.0.6/e1000_82575.c:1974-1990 | the same with four regions always checked |
| NvmChecksum.SwapUndetected | drivers/igb-3.0.6/e1000_82575.c:1824-1847 | exchanging two words of a region is never detected |
| NvmChecksum.UpdateDetermined | drivers/igb-3.0.6/e1000_82575.c:1859-1881 | there is only one way to make the regions right by changing checksum words |
| NvmChecksum.UpdateIdempotent | drivers/igb-3.0.6/e1000_82575.c:1930-1964 | updating an image that is already right changes nothing |
| NvmChecksum.RegionsDisjoint | drivers/igb-3.0.6/e1000_defines.h:606-606 | the four regions do not overlap |
| NvmChecksum.RegionsAre | drivers/igb-3.0.6/e1000_defines.h:606-606 | the regions are words 0 to 0x3F, 0x80 to 0xBF, 0xC0 to 0xFF and 0x100 to 0x13F, with the checksum in the last word of each |
| NvmChecksum.Nvm.ValidateWithOffset | drivers/igb-3.0.6/e1000_82575.c:1824-1847 | it succeeds exactly when the part answers every access and the region adds up to 0xBABA modulo 2^16 |
| NvmChecksum.Nvm.UpdateWithOffset | drivers/igb-3.0.6/e1000_82575.c:1859-1881 | it succeeds exactly when the part answers every access and has the region; then the region adds up; in any case no other word changes |
| NvmChecksum.Nvm.Validate82580 | drivers/igb-3.0.6/e1000_82575.c:1891-1920 | it succeeds exactly when the part answers every access and the image is valid |
| NvmChecksum.Nvm.Update82580 | drivers/igb-3.0.6/e1000_82575.c:1930-1964 | it succeeds exactly when the part answers every access and has the four regions; then validation succeeds with all of them checked; in any case only the compatibility bit and four checksum words may change |
| NvmChecksum.Nvm.ValidateRegions | drivers/igb-3.0.6/e1000_82575.c:1974-1990 | it succeeds exactly when the part answers every access and all the regions are right |
| NvmChecksum.Nvm.UpdateI350 | drivers/igb-3.0.6/e1000_82575.c:2000-2015 | it succeeds exactly when the part answers every access and has the four regions; then all four are right; in any case only their checksum words have changed |
| FilterTables.ShiftLoopEndsIff | drivers/igb-3.0.6/e1000_mac.c:331-339 | the search for bit_shift ends for exactly five register counts |
| FilterTables.HashMcAddr | drivers/igb-3.0.6/e1000_mac.c:326-386 | the search ends and the hash is a window of the 16-bit word of bytes 5 and 4 |
| FilterTables.BitIsHash | drivers/igb-3.0.6/e1000_mac.c:410-413 | different hash values are different bits of the table |
| FilterTables.EveryBitIsAHash | drivers/igb-3.0.6/e1000_mac.c:410-413 | every bit of the table belongs to a hash value |
| FilterTables.TableBit | drivers/igb-3.0.6/e1000_mac.c:296-308 | hash value h is bit h of the table taken as one array of bits, 32 to a register |
| FilterTables.SetAllHas | drivers/igb-3.0.6/e1000_mac.c:292-315 | setting a list of hashes adds exactly their bits |
| FilterTables.AnyOrder | drivers/igb-3.0.6/e1000_mac.c:292-315 | the order of the addresses does not matter |
| FilterTables.Mac.SetMta | drivers/igb-3.0.6/e1000_mac.c:292-315 | the register write is the one-bit step that AnyOrder and SetAllHas are about |
| FilterTables.Mac.UpdateMcAddrList | drivers/igb-3.0.6/e1000_mac.c:397-421 | afterwards the table has exactly the bits of the listed addresses, whatever it had before, as if set one by one |
| FilterTables.Mac.VftaSet | drivers/igb-3.0.6/e1000_mac.c:154-174 | only this VLAN's bit changes, and the result tells whether it was already as wanted |

## Left out

- DPA_ENABLE branches: dpa_rx_irq, bnx2_dpa_conf_rx_ring and DPA_IF_ENABLE are not part of this model.
- Register programming: PHY and chip setup, power states, self-tests, probing, LEDs.
- Flow control and link-speed decoding: a few bits, settled by enumeration.
- NvramAccess.Device.Read: says nothing about the lock on failure, because early returns leave it held (bnx2.c:4452-4453, 4504-4505).
- NvramAccess.Device.Write: says nothing about the lock on failure, for the same reason (bnx2.c:4612-4658), and then leaves open what the pages of the range hold.
- Flash parts: that an erase and the last write of a burst clear the write-enable latch, and that without it they complete without effect, is taken from the re-enabling at bnx2.c:4631-4632; a timed-out write-enable may or may not have set it. What each wait, allocation and write-enable command comes to is a parameter of the device. The delays of the polling loops are not modelled.
- Memory ordering: TxProtocol and MsixPoll assume sequential consistency, which smp_mb and rmb provide in the source.
- DMA of the status block: a post of new indices is one step in MsixPoll.
- Descriptor flags for VLAN, checksum offload and TSO segmentation: they do not affect the rings.
- tx_prod_bseq, which goes to the device with the doorbell: a sum of lengths.
- Transmit timeouts, and what stops the two transmit routines before packets in flight are freed.
- VLAN tag re-insertion (whether a frame goes up tagged is part of what the device reports), GRO, checksum status, CNIC callbacks, ethtool queries, firmware files.
- MAX_SKB_FRAGS: a kernel constant, taken as 18 with 4 kB pages.
- Bytes of received frames: only lengths, buffers and pages are modelled.
- Kernel services: what the kernel answers to each request for memory or a mapping is a parameter, and it never hands out what is in use; what the stack does with delivered buffers is not modelled.
- A page descriptor whose slot is posted anew before the device has used it: possible when the driver's lead and the posted pages together exceed the ring. A frame's own pages are those first posted in its descriptors.
- Receive without a page ring: modelled as a page ring of one page to which nothing is posted, so that frames beyond rx_jumbo_thresh are ruled out then, as by the chip's MTU setting.
- Frames that no sane device reports: a header in the buffer of another length than ip_xsum says, an unsplit frame of which the buffer has less than it has room for, a good frame shorter than its CRC, a split frame without anything in its pages (`RxRing.RxRing.RxPages` keeps the CRC in the buffer then), a frame with pages and an empty buffer. A header longer than the frame would wrap the source's unsigned subtraction.
- skb_fill_page_desc beyond MAX_SKB_FRAGS fragments: the longest frame the chip takes needs three.
- The status checks of intr_sem in the interrupt routine: they matter only while the interface is being reconfigured.
- SW_FW_SYNC timing: the 200 attempts and word_size + 1 polls are parameters, the delays between them are not modelled.
- 82575 and 82576 checksum variants: they check the first region only, which ValidateWithOffset covers at offset 0.
