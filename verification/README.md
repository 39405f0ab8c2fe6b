# W132D Linux: models and proofs

A Dafny model of the stateful parts of the W132D support package: the receive path of the UWE5621DS
Wi-Fi driver, the Bluetooth transport beside it, and the host tools that split, flash and publish an
image. `dafny verify dfyconfig.toml` checks all of it.

**Block-ack reordering** (`SeqNo`, `ReorderWindow`, `ReorderRing`, `ReorderFacts`, `ReorderTail`,
`Reorder`, `ReorderRuns`, `ReorderDue`, `ReorderService`). `ReorderWindow` is the reference: a window over
unbounded sequence numbers that holds its MPDUs in a map, without ring buffer, wrap-around or fast path.
`Reorder.Session` is the driver's session: twelve-bit marks, a circular buffer updated in place, a timer and
a retry counter. Each method is proved to move the session exactly as the reference moves, so whatever holds
for runs of the reference holds for the driver. `Session.Valid` is the session invariant: win_limit,
buff_cnt, each waiting MPDU at slot `seq mod length`, all other slots zero, no complete MPDU at win_start;
`TimerOk` adds that the timer is pending exactly when something waits. The unbounded numbers start one
sequence space up, so that old frames have natural numbers too; each twelve-bit number then means the nearest
unbounded one (`SeqNo.Unwrap`), and a timeout restarts the window wherever win_tail lets its scan run.
`ReorderRuns` proves release order, the make-up of each MPDU from the frames received, conservation of
buffers and packet-number monotonicity over every run, `ReorderDue` when an MPDU may leave and when a session
closes; `ReorderService.Serve` states them of a session from its opening on.

**H4 reassembly** (`H4`). The block loop of `sprd_hci_recv` against a byte-at-a-time parser: independence
of the cuts, and a round trip from packets to frames.

**Message buffers** (`MbufPool`, `TxCredits`, `MsgGate`, `Threads`). The threaded free list on the heap, the
credit semaphore in front of it, and the rundown gate of the message lists; the latter two as interleaved steps
of any number of threads.

**Defragmentation** (`Defrag`, `DefragRuns`), **INI checksum** (`Crc`), **flashing** (`Flash`) and **publication
history** (`Repository`).

Where the code falls short of what one would expect of it, the model follows the code, and a lemma says
exactly when the expectation holds:

- A frame 2047 or 2048 ahead of win_start can leave win_tail behind (`ReorderTail.TailFollows`). Over every
  run a timeout releases something if and only if win_tail is not before win_start
  (`LossRecoveryExactly`, `TimeoutsStall`). `TailOutrun` and `TailCatchesUp` give the input.
- A session that too many timeouts closed keeps what waits. Removing it loses those buffers, and opening it
  again leaves them in its slots, each if and only if something was waiting (`Reorder.Session.WlanDelbaEvent`,
  `WlanAddbaAgain`); `ReorderService.CloseThenRemove` and `CloseThenReopen` give the signals. Opening a node
  again with a larger window than its buffer was made for is no valid session either.
- A filter event fails if and only if its session is inactive (`Reorder.Session.WlanFilterEvent`).
- The window tests are right for every window start if and only if the window size is between 1 and 2048
  (`Reorder.WindowSizesExactly`).
- A packet-number reset is honoured only for numbers with neither half larger
  (`ReorderRuns.ResetAcceptance`).
- Permits and nodes of the Bluetooth pool balance if and only if no push was refused and every freed list had
  one node; the semaphore is dead if and only if 63 permits are lost (`TxCredits.CreditsBalance`,
  `DeadExactly`, and `RefusalsDrainThePermits` for a run).
- What an HCI stream is reassembled to is independent of its cuts if and only if no byte before the last one
  overflows its buffer (`H4.CutsAgreeExactly`, and `OversizeDependsOnCuts` for two cuts).
- A reassembled MSDU is correct if and only if its queue begins with fragment 0, which stray continuations
  circumvent (`Defrag.EveryOutputNeedsItsHead`, and `StrayFragments` for a run).
- An MSDU in progress is lost if and only if a newer one of its own key starts, or one of a key without a
  node while all three are busy and it is the oldest (`DefragRuns.LosesMeans`, `LostExactly`). The copy of a
  queue leaves its buffer if and only if the queue does not fit the node's count, which takes a stray
  continuation (`Defrag.DefragEntry.ContinueMsdu`, `HeadMakesRoom`).
- A reassembled MSDU that is repeated as a whole is dropped if no other node has its station and traffic class
  (`DefragRuns.InterleavedMsduGoesUp`); the initial nodes share one (`RepeatedGoesUpTwice`).
- The gate of a message list admits while it is open if and only if there are fewer than 32767 users and
  queued buffers (`MsgGate.AdmittedExactly`).
- A message list that deinit's caller frees is still in use if and only if the count exceeds 0x8000, and after
  three seconds deinit returns although it does (`MsgGate.GuardIsExact`, and `GiveUpTooEarly` for two runs).

Reading aids. `seq & index_mask` is written as a remainder (`Reorder.MaskIsRemainder`). A lock is the
atomicity of a step, a socket buffer an identity or its bytes, memory and device answers are parameters.
Digests stand for the contents they are taken of. Package versions are date, run and attempt; dpkg compares
them number by number, since the channel suffix is the same on both sides. HCI packet types and header
sizes come from the kernel's headers, which are not part of the repository; the tailroom of a receive
buffer is a parameter.

## Model

| member | source | states |
|---|---|---|
| `SeqNo.LeqIsTotalAndAntisymmetric` | userpatches/extensions/w132d/drivers/uwe5621ds/unisocwifi/rx_msg.h:240-253 | of two different sequence numbers exactly one is before the other; at distance 2048 the larger value comes first |
| `SeqNo.LeqDecidesOrder` | userpatches/extensions/w132d/drivers/uwe5621ds/unisocwifi/rx_msg.h:240-253 | for unbounded numbers less than 4096 apart, `seqno_leq` on their twelve bits gives their order if and only if they are unambiguous |
| `SeqNo.WrapDistance` | userpatches/extensions/w132d/drivers/uwe5621ds/unisocwifi/rx_msg.h:10-12 | `SEQNO_SUB` recovers the distance of two numbers less than 4096 apart |
| `SeqNo.UnwrapIsUnique` | userpatches/extensions/w132d/drivers/uwe5621ds/unisocwifi/rx_msg.h:240-253 | for a window start of at least 2048 every twelve-bit number stands for exactly one unambiguous number (the tie at distance 2048 decided as `seqno_leq` decides it) |
| `Reorder.GetIndexSize` | userpatches/extensions/w132d/drivers/uwe5621ds/unisocwifi/reorder.c:32-42 | the least doubling of 64 that is large enough, hence a divisor of 4096 for windows up to 2048 |
| `Reorder.WindowTests` | userpatches/extensions/w132d/drivers/uwe5621ds/unisocwifi/reorder.c:381-387 | the two order tests decide, for every unambiguous number, negative ones included, whether it is old, inside or beyond the window |
| `Reorder.WindowSizesExactly` | userpatches/extensions/w132d/drivers/uwe5621ds/unisocwifi/reorder.c:44-60 | the test against win_limit tells inside from beyond for every window start if and only if the window size is between 1 and 2048 |
| `Reorder.Session.constructor` | userpatches/extensions/w132d/drivers/uwe5621ds/unisocwifi/reorder.c:44-60 | a fresh node represents the empty reference window, counted from one sequence space up; marks in place, timer stopped |
| `Reorder.Session.WlanAddbaAgain` | userpatches/extensions/w132d/drivers/uwe5621ds/unisocwifi/reorder.c:774-819 | opening an existing node again resets size, marks and counter but not the slots: the session is valid if and only if the buffer is large enough, the slots in use are empty and no retry is counted; for the size it had, if and only if nothing was waiting |
| `Reorder.Session.Activate` | userpatches/extensions/w132d/drivers/uwe5621ds/unisocwifi/reorder.c:1029-1044 | activation changes nothing but the flag, whatever the node holds and whether or not it is valid |
| `Reorder.Session.HandUp` | userpatches/extensions/w132d/drivers/uwe5621ds/unisocwifi/reorder.c:201-221 | a chain of buffers is delivered or, on a failed replay check, freed; without buffers there is no check |
| `Reorder.Session.SendReorderSkb` | userpatches/extensions/w132d/drivers/uwe5621ds/unisocwifi/reorder.c:209-224 | releasing a slot is one step of the reference window and leaves the slot zero |
| `Reorder.Session.SendMsduInOrder` | userpatches/extensions/w132d/drivers/uwe5621ds/unisocwifi/reorder.c:254-274 | releases exactly the reference's run of complete MPDUs; the sixteen-bit counter never wraps |
| `Reorder.Session.SendMsduWithGap` | userpatches/extensions/w132d/drivers/uwe5621ds/unisocwifi/reorder.c:276-299 | the gap walk is the reference's release of everything before the new start, however often it laps the buffer |
| `Reorder.Session.ReleaseInOrder` | userpatches/extensions/w132d/drivers/uwe5621ds/unisocwifi/reorder.c:301-307 | in-order release with win_start and win_limit set afterwards |
| `Reorder.Session.GreaterThanSeqhi` | userpatches/extensions/w132d/drivers/uwe5621ds/unisocwifi/reorder.c:309-323 | a window jump follows the reference, window marks included |
| `Reorder.Session.InsertMsdu` | userpatches/extensions/w132d/drivers/uwe5621ds/unisocwifi/reorder.c:340-371 | stores, joins or refuses exactly as the reference does, keeping buffer and counter in step |
| `Reorder.Session.ReorderMsdu` | userpatches/extensions/w132d/drivers/uwe5621ds/unisocwifi/reorder.c:373-401 | jump, insertion, win_tail update and the freeing of refused frames |
| `Reorder.Session.ModReorderTimer` | userpatches/extensions/w132d/drivers/uwe5621ds/unisocwifi/reorder.c:105-118 | the timer is pending if and only if something waits |
| `Reorder.Session.SendOrderMsdu` | userpatches/extensions/w132d/drivers/uwe5621ds/unisocwifi/reorder.c:184-207 | the fast path has the effect of storing the frame and releasing it |
| `Reorder.FastPath` | userpatches/extensions/w132d/drivers/uwe5621ds/unisocwifi/reorder.c:422-427 | in the reference, a frame in sequence with nothing waiting goes straight through |
| `Reorder.Session.ReorderMsduProcess` | userpatches/extensions/w132d/drivers/uwe5621ds/unisocwifi/reorder.c:403-458 | one frame takes the session where the reference goes, which `ReorderFacts.ReceiveTakes` and `ReorderDue.ReceiveDue` pin down, or past an inactive one; the session invariant and the timer invariant are kept, and a stored frame repairs the timer; it fails if and only if a filter event meets an inactive session |
| `Reorder.Session.SlotsInWindow` | userpatches/extensions/w132d/drivers/uwe5621ds/unisocwifi/reorder.c:184-458 | between steps win_limit is win_start + win_size - 1, buff_cnt counts the occupied slots, each occupied slot holds a number of the window at its own index, the others are zero, and the slot at win_start holds no complete MPDU |
| `Reorder.Session.WlanFilterEvent` | userpatches/extensions/w132d/drivers/uwe5621ds/unisocwifi/reorder.c:622-639 | a filter event is a complete MPDU without buffers; it fails if and only if the session is inactive |
| `Reorder.Session.PassOn` | userpatches/extensions/w132d/drivers/uwe5621ds/unisocwifi/reorder.c:71-85 | a buffer is appended to the delivered list; a chain without buffers fails |
| `Reorder.Session.RequestPnReset` | userpatches/extensions/w132d/drivers/uwe5621ds/unisocwifi/reorder.c:574-585 | a reset request only sets the flag |
| `Reorder.Session.GetFirstSeqnoInBuff` | userpatches/extensions/w132d/drivers/uwe5621ds/unisocwifi/reorder.c:908-924 | terminates whatever win_tail is and finds the first complete MPDU within reach |
| `Reorder.Session.BaReorderTimeout` | userpatches/extensions/w132d/drivers/uwe5621ds/unisocwifi/reorder.c:926-971 | restarts the window at the scanned number, whatever win_tail is; with win_tail in step this is the reference timeout and win_tail stays in step |
| `Reorder.Session.CountRetry` | userpatches/extensions/w132d/drivers/uwe5621ds/unisocwifi/reorder.c:960-967 | the sixty-first timeout closes the session and requests a DELBA |
| `Reorder.Session.FlushReorderBuffer` | userpatches/extensions/w132d/drivers/uwe5621ds/unisocwifi/reorder.c:226-238 | every slot is zero and exactly the waiting buffers are freed |
| `Reorder.Session.WlanDelbaEvent` | userpatches/extensions/w132d/drivers/uwe5621ds/unisocwifi/reorder.c:641-679 | on an active session nothing stays held, what waited is freed and nothing delivered; every buffer is accounted for if and only if the session was active or nothing waited |
| `Reorder.Drive` | userpatches/extensions/w132d/drivers/uwe5621ds/unisocwifi/reorder.c:254-458 | for every run of twelve-bit frames, filter events, timeouts and resets the session passes through the states of the reference window over unbounded numbers, win_tail in step or not |
| `ReorderRing.OccupiedCount` | userpatches/extensions/w132d/drivers/uwe5621ds/unisocwifi/reorder.c:340-371 | the represented buffer has as many occupied slots as MPDUs wait (buff_cnt) |
| `ReorderRing.Lookup` | userpatches/extensions/w132d/drivers/uwe5621ds/unisocwifi/reorder.c:262-264 | the slot of a number in reach shows what waits under it |
| `ReorderRing.Put` | userpatches/extensions/w132d/drivers/uwe5621ds/unisocwifi/reorder.c:345-368 | writing a slot represents adding or replacing one MPDU |
| `ReorderRing.Clear` | userpatches/extensions/w132d/drivers/uwe5621ds/unisocwifi/reorder.c:223-223 | clearing the slot at the window start represents stepping over it |
| `ReorderRing.SlotBufsAreWaiting` | userpatches/extensions/w132d/drivers/uwe5621ds/unisocwifi/reorder.c:231-235 | the buffers in the slots are the buffers waiting in the window |
| `ReorderFacts.InOrderDrains` | userpatches/extensions/w132d/drivers/uwe5621ds/unisocwifi/reorder.c:254-274 | in-order release stops at the first number missing or incomplete and takes only complete MPDUs |
| `ReorderFacts.GapDrains` | userpatches/extensions/w132d/drivers/uwe5621ds/unisocwifi/reorder.c:276-299 | a gap release empties everything before the new start and nothing else |
| `ReorderFacts.RoomDrains` | userpatches/extensions/w132d/drivers/uwe5621ds/unisocwifi/reorder.c:309-323 | after a jump the number fits the window, nothing was stored in its place, and the start went past the necessary point only over complete MPDUs |
| `ReorderFacts.ReceiveTakes` | userpatches/extensions/w132d/drivers/uwe5621ds/unisocwifi/reorder.c:340-401 | a frame is dropped if and only if it is old, repeats a complete MPDU or, under TKIP and CCMP, carries another packet number than the MPDU it would join; then nothing moves, and otherwise it is stored |
| `ReorderFacts.ReceiveSteady` | userpatches/extensions/w132d/drivers/uwe5621ds/unisocwifi/reorder.c:403-458 | every frame leaves the window legal, with no complete MPDU at its start |
| `ReorderFacts.TargetIsFirstComplete` | userpatches/extensions/w132d/drivers/uwe5621ds/unisocwifi/reorder.c:908-924 | a timeout aims at the first complete MPDU, or past everything waiting |
| `ReorderFacts.TimeoutProgress` | userpatches/extensions/w132d/drivers/uwe5621ds/unisocwifi/reorder.c:949-969 | each timeout with something waiting strictly advances win_start and strictly shrinks the buffer |
| `ReorderTail.ReachCounts` | userpatches/extensions/w132d/drivers/uwe5621ds/unisocwifi/reorder.c:914-920 | the scan's loop test stops after at most 2049 steps for any win_tail |
| `ReorderTail.TimerGoalExactly` | userpatches/extensions/w132d/drivers/uwe5621ds/unisocwifi/reorder.c:908-924 | whatever win_tail is, the scan ends at the first number from win_start on that is complete or that win_tail does not reach |
| `ReorderTail.GoalIsTarget` | userpatches/extensions/w132d/drivers/uwe5621ds/unisocwifi/reorder.c:908-924 | with win_tail in step the scan chooses the reference target |
| `ReorderTail.EverySignalMeans` | userpatches/extensions/w132d/drivers/uwe5621ds/unisocwifi/reorder.c:403-458 | no twelve-bit number is excluded: a signal is enabled if and only if the session is active, the MPDU counter has room and a timer has something to wait for |
| `ReorderTail.TailFollows` | userpatches/extensions/w132d/drivers/uwe5621ds/unisocwifi/reorder.c:387-389 | win_tail keeps marking the newest waiting MPDU if and only if the frame is old or unambiguous with the old tail |
| `ReorderTail.ReachSuffices` | userpatches/extensions/w132d/drivers/uwe5621ds/unisocwifi/reorder.c:387-389 | a frame at most 2046 ahead of win_start is such a frame |
| `ReorderTail.ReachKeepsStep` | userpatches/extensions/w132d/drivers/uwe5621ds/unisocwifi/reorder.c:387-389 | in a run without frames further ahead, every timeout is the reference timeout |
| `ReorderTail.TimeoutKeepsTail` | userpatches/extensions/w132d/drivers/uwe5621ds/unisocwifi/reorder.c:949-958 | a timeout does not move the tail |
| `ReorderTail.ProgressNeedsTail` | userpatches/extensions/w132d/drivers/uwe5621ds/unisocwifi/reorder.c:908-958 | a timeout with something waiting moves win_start if and only if win_tail is not before it |
| `ReorderTail.TimeoutReleases` | userpatches/extensions/w132d/drivers/uwe5621ds/unisocwifi/reorder.c:908-958 | if win_tail marks something that waits, or nothing beyond it waits, a timeout shrinks the buffer if and only if win_tail is not before win_start |
| `ReorderTail.LossRecoveryExactly` | userpatches/extensions/w132d/drivers/uwe5621ds/unisocwifi/reorder.c:908-971 | over every run of a session, win_tail in step or not, each timeout shrinks the buffer if and only if win_tail is not before win_start, and changes nothing waiting otherwise |
| `ReorderTail.TimeoutsStall` | userpatches/extensions/w132d/drivers/uwe5621ds/unisocwifi/reorder.c:908-969 | with win_tail before win_start no number of timeouts releases anything |
| `ReorderTail.TailOutrun` | userpatches/extensions/w132d/drivers/uwe5621ds/unisocwifi/reorder.c:387-389 | a session opened at 1 accepts 2048 without moving win_tail, and no number of timeouts after it reaches that MPDU |
| `ReorderTail.TailCatchesUp` | userpatches/extensions/w132d/drivers/uwe5621ds/unisocwifi/reorder.c:387-389 | until another frame moves win_tail: after 2047 a timeout releases both |
| `ReorderRuns.ReleaseOrder` | userpatches/extensions/w132d/drivers/uwe5621ds/unisocwifi/reorder.c:184-338 | over every run releases strictly increase, none happens twice, and each MPDU is made of the accepted frames of its number in arrival order: their buffers, the first one's cipher and packet number, the newest one's last flag |
| `ReorderRuns.Conservation` | userpatches/extensions/w132d/drivers/uwe5621ds/unisocwifi/reorder.c:184-252 | over every run each buffer given is delivered, freed or waiting, exactly once |
| `ReorderRuns.PnMonotone` | userpatches/extensions/w132d/drivers/uwe5621ds/unisocwifi/reorder.c:137-182 | over every run packet numbers of the frames received that pass strictly increase, with at most one exception per reset request, and only replays under TKIP and CCMP are refused |
| `ReorderRuns.AcceptedWereReceived` | userpatches/extensions/w132d/drivers/uwe5621ds/unisocwifi/reorder.c:340-401 | over every run nothing is accepted that was not received |
| `ReorderDue.ReceiveDue` | userpatches/extensions/w132d/drivers/uwe5621ds/unisocwifi/reorder.c:301-323 | a frame moves the window over a number only if that number falls out of the window ending at the frame's, or its MPDU is complete, or the frame completes it |
| `ReorderDue.ReleasedWhenDue` | userpatches/extensions/w132d/drivers/uwe5621ds/unisocwifi/reorder.c:254-323 | over every run an MPDU leaves incomplete only if a frame at least a window ahead arrived or a timeout aimed past it |
| `ReorderDue.ClosesExactly` | userpatches/extensions/w132d/drivers/uwe5621ds/unisocwifi/reorder.c:960-967 | over every run a session closes, and sends its one DELBA request, exactly at the sixty-first timeout since its window was last empty |
| `ReorderRuns.CheckIsOrder` | userpatches/extensions/w132d/drivers/uwe5621ds/unisocwifi/reorder.c:153-179 | the two-word comparison is the order of 48-bit packet numbers, the reset case aside |
| `ReorderRuns.ResetAcceptance` | userpatches/extensions/w132d/drivers/uwe5621ds/unisocwifi/reorder.c:160-166 | after a reset request a number that is not larger passes if and only if neither half is larger; (1,5) then refuses (0,7) |
| `ReorderService.Serve` | userpatches/extensions/w132d/drivers/uwe5621ds/unisocwifi/reorder.c:184-458 | a session opened, activated and driven by any signals: releases in order and when due, MPDUs made of frames received, every buffer delivered, freed or in a slot, packet numbers as received rising but for the resets asked for, one DELBA request if it closes |
| `ReorderService.ClosesWhileWaiting` | userpatches/extensions/w132d/drivers/uwe5621ds/unisocwifi/reorder.c:949-969 | there are signals for every start and size from which a session closes by itself with one MPDU waiting |
| `ReorderService.CloseThenRemove` | userpatches/extensions/w132d/drivers/uwe5621ds/unisocwifi/reorder.c:661-679 | when it is then removed that buffer is neither delivered nor freed |
| `ReorderService.CloseThenReopen` | userpatches/extensions/w132d/drivers/uwe5621ds/unisocwifi/reorder.c:797-803 | when it is opened again its counter says empty while a slot is filled |
| `H4.ReceiveIsFeed` | userpatches/extensions/w132d/drivers/uwe5621ds/tty-sdio/hci.c:421-461 | with room and memory, one block has the effect of its bytes one by one |
| `H4.BlocksAreBytes` | userpatches/extensions/w132d/drivers/uwe5621ds/tty-sdio/hci.c:410-462 | so has any sequence of blocks, pending bytes and counters included |
| `H4.ChunkingInvariance` | userpatches/extensions/w132d/drivers/uwe5621ds/tty-sdio/hci.c:410-462 | two ways of cutting one stream end in the same state |
| `H4.CutsAgreeExactly` | userpatches/extensions/w132d/drivers/uwe5621ds/tty-sdio/hci.c:421-461 | all ways of cutting a stream end in the same state if and only if no byte before the last one overflows its buffer |
| `H4.ReceiveOverflows` | userpatches/extensions/w132d/drivers/uwe5621ds/tty-sdio/hci.c:442-448 | a block with an overflow ends in the state just before the overflowing byte, without the packet and with one more error |
| `H4.ReceiveGrows` | userpatches/extensions/w132d/drivers/uwe5621ds/tty-sdio/hci.c:421-461 | a block never takes a frame or error back, and whatever starts in it leaves a frame, an error or a pending packet |
| `H4.OversizeDependsOnCuts` | userpatches/extensions/w132d/drivers/uwe5621ds/tty-sdio/hci.c:442-448 | for a packet without room the cut matters: a concrete stream and two cuts with different error counts |
| `H4.HeaderAnnounces` | userpatches/extensions/w132d/drivers/uwe5621ds/tty-sdio/hci.c:378-408 | header lengths and length fields of the four packet types agree with the encoding |
| `H4.HeaderLengths` | userpatches/extensions/w132d/drivers/uwe5621ds/tty-sdio/hci.c:378-392 | exactly the bytes 2 to 5 start a packet, with headers of 4, 3, 2 and 4 bytes |
| `H4.ReceiveFails` | userpatches/extensions/w132d/drivers/uwe5621ds/tty-sdio/hci.c:433-437 | at the first failed allocation the rest of the block is given up: what was complete before stays, with one more error |
| `H4.FeedPacket` | userpatches/extensions/w132d/drivers/uwe5621ds/tty-sdio/hci.c:424-460 | an encoded packet is handed up once, byte for byte |
| `H4.RoundTrip` | userpatches/extensions/w132d/drivers/uwe5621ds/tty-sdio/hci.c:410-462 | any list of well-formed packets with junk between them, cut anywhere, is handed up as that list and leaves the parser idle; each junk byte is one error, and the bytes are counted |
| `H4.Receiver.constructor` | userpatches/extensions/w132d/drivers/uwe5621ds/tty-sdio/hci.c:482-501 | a fresh receiver is idle |
| `H4.Receiver.Recv` | userpatches/extensions/w132d/drivers/uwe5621ds/tty-sdio/hci.c:410-462 | the receive loop, allocation failure and overflow included, computes the block function and keeps the reassembly invariant |
| `H4.Receiver.Append` | userpatches/extensions/w132d/drivers/uwe5621ds/tty-sdio/hci.c:449-460 | one turn inside a packet |
| `PoolModel.RunPartition` | userpatches/extensions/w132d/drivers/uwe5621ds/unisocwcn/wcn_bus.c:144-227 | over every run of allocations and frees, free and handed-out nodes are exactly the pool |
| `PoolModel.PartitionMeansDisjoint` | userpatches/extensions/w132d/drivers/uwe5621ds/unisocwcn/wcn_bus.c:144-227 | then no node is in two places and the counts add up |
| `PoolModel.AllocIsFresh` | userpatches/extensions/w132d/drivers/uwe5621ds/unisocwcn/wcn_bus.c:162-179 | an allocation hands out only nodes that nobody holds |
| `PoolModel.AllocTakesFirst` | userpatches/extensions/w132d/drivers/uwe5621ds/unisocwcn/wcn_bus.c:162-179 | a request is met in full whenever the pool has that many nodes and with all of them otherwise, from the front of the free list |
| `PoolModel.FreeGoesInFront` | userpatches/extensions/w132d/drivers/uwe5621ds/unisocwcn/wcn_bus.c:216-220 | a freed list goes in front of the free nodes in its own order |
| `PoolModel.FreeUndoesAlloc` | userpatches/extensions/w132d/drivers/uwe5621ds/unisocwcn/wcn_bus.c:205-227 | freeing what was just allocated restores pool and order |
| `MbufPool.BufPool.constructor` | userpatches/extensions/w132d/drivers/uwe5621ds/unisocwcn/wcn_bus.c:101-132 | the chain runs through all nodes in memory order |
| `MbufPool.BufPool.BufPoolCheck` | userpatches/extensions/w132d/drivers/uwe5621ds/unisocwcn/wcn_bus.c:80-99 | the self-check is silent if and only if the head leads through exactly `free` nodes of the pool to the end; on a valid pool it is |
| `MbufPool.BufPool.BufListAlloc` | userpatches/extensions/w132d/drivers/uwe5621ds/unisocwcn/wcn_bus.c:144-182 | refuses on the count read before the lock; then hands out a linked prefix of the free list, or an empty list if the pool was emptied meanwhile; the rest stays an acyclic chain of `free` nodes |
| `MbufPool.BufPool.Walk` | userpatches/extensions/w132d/drivers/uwe5621ds/unisocwcn/wcn_bus.c:167-175 | the walk ends at the tail of the list handed out |
| `MbufPool.BufPool.BufListFree` | userpatches/extensions/w132d/drivers/uwe5621ds/unisocwcn/wcn_bus.c:205-227 | a list handed out earlier goes back to the front of the chain |
| `MbufPool.AllocThenFree` | userpatches/extensions/w132d/drivers/uwe5621ds/unisocwcn/wcn_bus.c:144-227 | allocating and freeing restores the chain, links included |
| `TxCredits.PoolNeverRunsDry` | userpatches/extensions/w132d/drivers/uwe5621ds/tty-sdio/tty.c:797-820 | in every interleaving permits, permit holders and nodes in use stay below the pool size, so an allocation with a permit never fails |
| `TxCredits.CreditsBalance` | userpatches/extensions/w132d/drivers/uwe5621ds/tty-sdio/tty.c:349-366 | in every interleaving permits, holders, nodes in use and pending ups add up to 63 less the surplus; they balance if and only if no push was refused and every freed list had one node |
| `TxCredits.DeadExactly` | userpatches/extensions/w132d/drivers/uwe5621ds/tty-sdio/tty.c:446-466 | no continuation lets a writer pass again if and only if the surplus has reached 63 |
| `TxCredits.RefusalsDrainThePermits` | userpatches/extensions/w132d/drivers/uwe5621ds/tty-sdio/tty.c:446-466 | k refused pushes of one writer, a run that exists for each k up to 63, leave 63 - k permits with nothing in use; only the 63rd kills the semaphore |
| `TxCredits.InitInv` | userpatches/extensions/w132d/drivers/uwe5621ds/tty-sdio/tty.c:762-764 | the initial pool and semaphore satisfy the invariant |
| `TxCredits.StepInv` | userpatches/extensions/w132d/drivers/uwe5621ds/tty-sdio/tty.c:349-366 | every step of a writer or callback conserves permits and nodes |
| `TxCredits.AllocFailUndoesDown` | userpatches/extensions/w132d/drivers/uwe5621ds/tty-sdio/tty.c:446-452 | a writer that finds the pool empty gives its permit back |
| `TxCredits.WayThrough` | userpatches/extensions/w132d/drivers/uwe5621ds/tty-sdio/tty.c:446-466 | one node's way through writer, bus and callback restores permits and pool |
| `Defrag.FindIsFirst` | userpatches/extensions/w132d/drivers/uwe5621ds/unisocwifi/defrag.c:27-42 | the list walk finds the first node of the station and traffic class |
| `Defrag.StepGood` | userpatches/extensions/w132d/drivers/uwe5621ds/unisocwifi/defrag.c:136-214 | open nodes stay gapless, exactly counted, of different keys and in front of the idle ones |
| `Defrag.EvictionOnlyWhenFull` | userpatches/extensions/w132d/drivers/uwe5621ds/unisocwifi/defrag.c:96-110 | a new key evicts an unfinished reassembly if and only if all three nodes are in progress |
| `Defrag.OutputIsExact` | userpatches/extensions/w132d/drivers/uwe5621ds/unisocwifi/defrag.c:156-202 | an output consists of consecutive fragments of one MSDU and fills exactly the buffer allocated |
| `Defrag.StepSequenced` | userpatches/extensions/w132d/drivers/uwe5621ds/unisocwifi/defrag.c:136-214 | whatever arrives, a queue holds consecutive fragments of one MSDU, counted exactly if it begins with fragment 0 |
| `Defrag.EveryOutputNeedsItsHead` | userpatches/extensions/w132d/drivers/uwe5621ds/unisocwifi/defrag.c:21-214 | over every run, stray continuations included, an output is a correct reassembly of received fragments if and only if it begins with fragment 0 |
| `Defrag.EveryOutputIsCorrect` | userpatches/extensions/w132d/drivers/uwe5621ds/unisocwifi/defrag.c:21-214 | over every run without stray continuations each output is a correct reassembly of received fragments |
| `Defrag.FragmentsAreReassembled` | userpatches/extensions/w132d/drivers/uwe5621ds/unisocwifi/defrag.c:136-214 | an MSDU whose fragments arrive one after the other goes up once, complete |
| `DefragRuns.FirstFragment` | userpatches/extensions/w132d/drivers/uwe5621ds/unisocwifi/defrag.c:66-113 | a fragment 0 whose number is not after that of the first node of its key, drained or not, changes nothing; any other opens that node, or the last one, and moves it to the front |
| `DefragRuns.AssembledGrows` | userpatches/extensions/w132d/drivers/uwe5621ds/unisocwifi/defrag.c:173-199 | what goes up is the first fragment in full and of each other one the bytes after 14 or 12 header bytes |
| `DefragRuns.LosesMeans` | userpatches/extensions/w132d/drivers/uwe5621ds/unisocwifi/defrag.c:66-113 | an MSDU in progress is lost to a newer first fragment of its own station and traffic class, or, when all three nodes are busy and it is the oldest, to the first fragment of a class without a node |
| `DefragRuns.LostExactly` | userpatches/extensions/w132d/drivers/uwe5621ds/unisocwifi/defrag.c:119-214 | and only then: after any other fragment that does not continue it, it is in progress as before |
| `DefragRuns.NextJoins` | userpatches/extensions/w132d/drivers/uwe5621ds/unisocwifi/defrag.c:136-202 | its next fragment joins it, and the last one makes it go up |
| `DefragRuns.InterleavedMsduGoesUp` | userpatches/extensions/w132d/drivers/uwe5621ds/unisocwifi/defrag.c:119-214 | an MSDU whose fragments arrive in order, repeated or not, also after the last one, goes up exactly once, complete and filling its buffer, whatever others send in between, as long as no fragment takes its node and, for repetitions after the last, no other node has its key |
| `DefragRuns.RepeatedGoesUpTwice` | userpatches/extensions/w132d/drivers/uwe5621ds/unisocwifi/defrag.c:205-209 | from the initial nodes, which all have station 0 and class 0, an MSDU of that key repeated as a whole goes up twice |
| `Defrag.StrayFragment` | userpatches/extensions/w132d/drivers/uwe5621ds/unisocwifi/defrag.c:31-39 | the bytes that go up differ from the buffer size by the fragment's offset and header less what the node's count held before the queue was opened |
| `Defrag.StrayFragments` | userpatches/extensions/w132d/drivers/uwe5621ds/unisocwifi/defrag.c:31-39 | fragments 1 and 2 of an MSDU whose fragment 0 was lost go up as one from an initial node |
| `Defrag.HeadMakesRoom` | userpatches/extensions/w132d/drivers/uwe5621ds/unisocwifi/defrag.c:158-196 | a queue that begins with fragment 0 always fits the buffer allocated for it |
| `Defrag.DefragEntry.constructor` | userpatches/extensions/w132d/drivers/uwe5621ds/unisocwifi/defrag.c:231-252 | three idle nodes |
| `Defrag.DefragEntry.Lookup` | userpatches/extensions/w132d/drivers/uwe5621ds/unisocwifi/defrag.c:74-94 | the walk returns the first matching position |
| `Defrag.DefragEntry.StartMsdu` | userpatches/extensions/w132d/drivers/uwe5621ds/unisocwifi/defrag.c:66-113 | a first fragment opens its node or the last one, or is dropped as old |
| `Defrag.DefragEntry.ContinueMsdu` | userpatches/extensions/w132d/drivers/uwe5621ds/unisocwifi/defrag.c:136-214 | a later fragment is queued, completes the MSDU or is dropped; the copy leaves its buffer if and only if the queue does not fit the node's count |
| `Defrag.DefragEntry.DefragDataProcess` | userpatches/extensions/w132d/drivers/uwe5621ds/unisocwifi/defrag.c:216-229 | unfragmented MSDUs pass through, all others are processed |
| `Defrag.Reassemble` | userpatches/extensions/w132d/drivers/uwe5621ds/unisocwifi/defrag.c:173-199 | the copy loop stays inside the buffer if and only if the queue fits it, and then writes the first fragment and the bodies of the others |
| `Defrag.CopyBody` | userpatches/extensions/w132d/drivers/uwe5621ds/unisocwifi/defrag.c:180-196 | one fragment's bytes after its header |
| `MsgGate.CountIsExact` | userpatches/extensions/w132d/drivers/uwe5621ds/unisocwifi/msg.c:92-120 | in every interleaving the count is users plus queued buffers, plus 0x8000 after exit, and no buffer is in two places |
| `MsgGate.AdmittedExactly` | userpatches/extensions/w132d/drivers/uwe5621ds/unisocwifi/msg.c:92-100 | over every run an attempt is admitted if and only if the exit value was not added and users and queued buffers are fewer than 32767 |
| `MsgGate.TakesExactly` | userpatches/extensions/w132d/drivers/uwe5621ds/unisocwifi/msg.c:101-120 | an admitted thread obtains the first free buffer if and only if there is one; what is put back goes to the end |
| `MsgGate.BothServed` | userpatches/extensions/w132d/drivers/uwe5621ds/unisocwifi/msg.c:92-112 | two threads of a list with two buffers are both admitted and served |
| `MsgGate.RundownIsSafe` | userpatches/extensions/w132d/drivers/uwe5621ds/unisocwifi/msg.c:62-90 | once deinit sees the count at 0x8000 all buffers are on the free list and nobody obtains one again |
| `MsgGate.GuardIsExact` | userpatches/extensions/w132d/drivers/uwe5621ds/unisocwifi/msg.c:66-80 | after the exit value was added, threads inside or queued buffers still use the list if and only if the count exceeds 0x8000, the test on which deinit stops waiting after three seconds |
| `MsgGate.GiveUpTooEarly` | userpatches/extensions/w132d/drivers/uwe5621ds/unisocwifi/msg.c:73-90 | two runs in which deinit gives up at 0x8001: one thread owns a buffer, another has yet to give its reference back |
| `MsgGate.NobodyOwnsExactly` | userpatches/extensions/w132d/drivers/uwe5621ds/unisocwifi/msg.c:92-120 | after the exit value was added, nobody will hold a buffer again if and only if no thread is past the gate and nothing is queued |
| `MsgGate.InitInv` | userpatches/extensions/w132d/drivers/uwe5621ds/unisocwifi/msg.c:23-51 | the initial list satisfies the invariant |
| `MsgGate.StepInv` | userpatches/extensions/w132d/drivers/uwe5621ds/unisocwifi/msg.c:92-150 | every atomic step keeps it |
| `Crc.TableIsShift` | userpatches/extensions/w132d/drivers/uwe5621ds/unisocwifi/cmdevt.c:60-64 | the table holds the four-bit shifts of the polynomial 0xA001 |
| `Crc.ByteStepIsShift8` | userpatches/extensions/w132d/drivers/uwe5621ds/unisocwifi/cmdevt.c:191-195 | two table lookups are eight bit steps |
| `Crc.Crc16` | userpatches/extensions/w132d/drivers/uwe5621ds/unisocwifi/cmdevt.c:185-198 | CRC16 is the bit-by-bit CRC of the message |
| `Crc.BytesAreBits` | userpatches/extensions/w132d/drivers/uwe5621ds/unisocwifi/cmdevt.c:185-198 | the CRC of a message is that of its bits, the low bit of each byte first |
| `Crc.BurstsAreDetected` | userpatches/extensions/w132d/drivers/uwe5621ds/unisocwifi/cmdevt.c:706-736 | two messages of equal length whose bits differ within sixteen adjacent positions only share a CRC if and only if they are equal |
| `Crc.AdjacentErrorsAreDetected` | userpatches/extensions/w132d/drivers/uwe5621ds/unisocwifi/cmdevt.c:706-736 | messages that differ within two adjacent bytes only never share a CRC |
| `Flash.SliceImage` | tools/w132dlib/release.py:56-66 | a slice is the bytes of the image, and is refused if and only if it is unaligned, empty or too long |
| `Flash.SplitGeometry` | tools/w132dlib/release.py:69-90 | the two slices satisfy the geometry if and only if the reserved range is proper |
| `Flash.SplitAcceptable` | flash/flash.py:32-75 | the flasher accepts the two pieces of a release if and only if the reserved range is proper and both boot components are in the image where the layout says, off that range |
| `Flash.SplittableMeans` | tools/w132dlib/release.py:56-90 | an image splits around a proper range if and only if it goes on behind it and is whole sectors |
| `Flash.BootableMeans` | flash/flash.py:55-71 | an image boots if and only if both components are byte by byte in it where the layout says, below the range and below the first partition |
| `Flash.AcceptedMeans` | flash/flash.py:32-75 | an accepted manifest has a loader with the recorded contents, and boot components within their limits, off the range and in the pieces |
| `Flash.FlashBundle` | tools/w132dlib/release.py:69-111 | a bundle is produced exactly for such images, ranges and boot components |
| `Flash.Validate` | flash/flash.py:32-75 | the checks accept exactly the two pieces around the reserved range with their recorded contents, both boot components inside a piece and their limits, and the recorded loader, all of them files of the bundle |
| `Flash.ValidateComponent` | flash/flash.py:58-71 | one boot component: bounds, the first segment around it and its contents decide whether any segment carries it |
| `Flash.Device.Verify` | flash/flash.py:140-148 | the chunked readback succeeds if and only if the segment is on the device and no read fails |
| `Flash.Device.Wait` | flash/flash.py:105-114 | the wait succeeds if and only if the device appears in the mode within twenty attempts, before any listing fails, shows several devices or an unknown mode |
| `Flash.Device.Prepare` | flash/flash.py:117-126 | the loader is prepared if and only if the one device is led into it, or for a readback is in it already |
| `Flash.SuccessMeans` | flash/flash.py:117-152 | the answers of a successful run, call by call |
| `Flash.WaitMeans` | flash/flash.py:105-114 | a device that shows up within twenty attempts ends the wait well, a failing tool or a second device ends it badly |
| `Flash.Device.FlashRun` | flash/flash.py:117-152 | success if and only if every tool call succeeded, the one size reported is large enough and both segments are on the device; then both boot components are too; if the medium keeps what is written the calls suffice; outside the segments nothing changes in any case, and nothing at all before the size is confirmed |
| `Flash.BundleAndFlash` | flash/flash.py:117-152 | after success the device equals the image outside the reserved range and holds both boot components; that range and everything past the image are untouched in any case |
| `Repository.VersionOrder` | tools/w132dlib/repository.py:32-52 | the order of versions is that of date, run and attempt, total on different versions; the task order leaves out the date |
| `Repository.LessIsLexicographic` | tools/w132dlib/repository.py:49-60 | in the comparison of tuples the first different element decides, or a missing one |
| `Repository.Acceptance` | tools/w132dlib/repository.py:36-65 | step fact: when a publication is accepted, by the fields of versions and upstreams, and the entry list it leaves in its channel, three or two long at most, the other channel untouched |
| `Repository.Refusals` | tools/w132dlib/repository.py:42-52 | step fact: the reason of each refusal, in the order tried |
| `Repository.UpstreamRefusals` | tools/w132dlib/repository.py:53-60 | step fact: a smaller tag, or an equal one with another commit, is refused for each of the three upstreams |
| `Repository.RepublishIsIdempotent` | tools/w132dlib/repository.py:42-45 | step fact: publishing again changes no channel |
| `Repository.StaysDeployed` | tools/w132dlib/repository.py:36-65 | an empty repository is a deployed one, and publications leave a deployed one behind |
| `Repository.HistoryIsMonotone` | tools/w132dlib/repository.py:36-65 | from any deployed repository, entries without U-Boot included, after any publications: at most three and two entries, strict descent by date, run and attempt and by CI task, no tag regression of what is recorded, and equal tags share a commit however far apart |
| `Repository.VersionsAreImmutable` | tools/w132dlib/repository.py:42-46 | from any deployed repository no version enters a channel's history twice |
| `Repository.SupersededVersionsAreRefused` | tools/w132dlib/repository.py:42-50 | after any publications a version that was ever superseded is refused as stale, whatever comes with it and however long ago it was dropped |

## Left out

- Reorder.Session.ReorderMsduProcess: assumes that an MPDU collects fewer than 65535 MSDUs, because the sixteen-bit msdu_num would read zero again and the slot would count as empty; the hardware's MSDU index has eight bits.
- Reorder.Session.constructor: takes window sizes from 1 to 2048, those for which the window tests are right (`Reorder.WindowSizesExactly`); so does `Reorder.Session.WlanAddbaAgain`.
- Reorder.Drive: calls the timeout handler with the timer not started again meanwhile; `Reorder.Session.BaReorderTimeout` covers that case too.
- Not modelled at all: BAR handling, the node lookup over stations and traffic classes, and the list shared by all sessions.
- H4.Receiver.Recv: assumes a registered, running device; a closed one ignores the block and drops the pending packet.
- H4.CutsAgreeExactly: assumes that no allocation fails; a failed one gives up on the rest of the block, as `H4.Receiver.Recv` states.
- MbufPool.BufPool.BufPoolCheck: takes an address inside the pool's memory for one of its nodes.
- TxCredits.StepInv: does not model the payload copies and kmalloc failures before the semaphore is taken.
- Defrag.DefragEntry.ContinueMsdu: requires fragments to hold their own header and an MSDU to fit sixteen bits; where the copy would leave its buffer it stops.
- MsgGate.GuardIsExact: leaves out threads that enter after the list was freed, which are the callers' concern.
- Defrag.OutputIsExact: keeps the descriptor as a record beside the bytes, so the rewritten length inside the copied bytes is not visible.
- Crc.Crc16: takes lengths below 65536, the range of its length parameter; the caller's 32-bit length would be cut.
- Flash.Validate: does not model the selection of the flashing tool, which is made outside of it.
- Flash.Device.FlashRun: trusts data that a successful read returns.
- Repository.Acceptance: starts from states that hold both channels; building, signing and uploading the repository are not modelled.
- Command packing, configuration parsing, codecs, DMA and the build orchestration would only add easy members.
