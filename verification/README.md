# RT-Thread kernel structures and the firmware upgrade: a verified model

This project models, in Dafny, the kernel data structures of RT-Thread that carry real
invariants, and the boot loader's upgrade protocol on top of them, and proves that they keep
what they promise. `dafny verify dfyconfig.toml` verifies all of it.

Most components come in two layers. A module of functions on values says what each operation
does, and lemmas prove what every run of such operations keeps. A class with the fields, links
and arrays of the C code then carries out the same operations in place, and each method is
proved equal to the function. The layers are named alike: `X` or `XHeap` is the class of `XSpec`.

- **Firmware upgrade.** `Crc32` (the table form against the bit-serial CRC-32 of section 8 of
  RFC 1952), `Flash` (a NOR flash that can lose power between any two operations), `Boot` (check,
  copy, erase, reset at any point), `IapSlave` (the packet protocol that fills a partition).
- **Kernel objects.** `RingList` is the intrusive ring of `rtservice.h`, `WaitList` what the
  operations of a suspended-thread list do to the sequence of threads, `ThreadList` the same on the
  ring's links. On them stand `Semaphore`, `Mutex`, `Event`, `MailboxSpec`, `Mailbox`, `MailboxRuns`,
  `MessageQueueSpec`, `MessageQueue`, `MessageLedger`, `MessageQueueRuns`. Each section with
  interrupts disabled is one atomic step; threads interleave freely between sections. A timeout is
  a step that the environment may take at any time.
- **Timers.** `TimerRows` and `TimerList` describe deadlines on a clock that never wraps;
  `Timer` is the skip list on 32-bit ticks.
- **Heaps.** `BlockList` is shared by the small heap (`SmallHeapSpec`, `SmallHeap`) and the
  memheap (`MemHeapSpec`, `MemHeap`); `PageList`, `Pages`, `ZoneSpec`, `SlabSpec`, `SlabHeap`
  are the slab allocator.
- **Scheduler.** `ReadyBits` (bitmap and `__rt_ffs`), `SchedulerSpec`, `Scheduler`.

Behaviour of the code that differs from what its interface suggests, stated as it is:

- An image that is too large for app makes `firm_upgrade` report success without copying, and the
  UPDATE step then erases download. `Boot.UpgradeKeepsImageIffItFits` says exactly when the image
  survives, `Boot.ShortAppLosesImage` names a case; with the configured partition table it always fits.
- `RT_ALIGN` wraps for the last three sizes below 2^32. `rt_malloc` of the small heap then grants
  12 bytes, and `rt_realloc` frees the block and returns NULL (`SmallHeapSpec.MallocGrants`,
  `SmallHeapSpec.ReallocNullKeepsBlock`; inputs in `SmallHeapSpec.MallocWraps` and
  `SmallHeapSpec.ReallocWraps`). The memheap grants 12 bytes, and cuts a live block to 12 bytes
  (`MemHeapSpec.AllocGrants`, `MemHeapSpec.ReallocGrants`; an input in `MemHeapSpec.AllocWraps`).
- In `rt_memheap_realloc` the sum of the new size and the minimum wraps for new sizes from 2^32 - 15
  to 2^32 - 4. With a free item behind the block the test for growing in place then succeeds, and a
  new item header is written over the header and the payload of the block. `MemHeapSpec.ReallocGrants`
  says exactly when, `MemHeapSpec.ReallocBreaks` what happens, `MemHeapSpec.ReallocWraps` names an input.
- The small heap refuses an exact fit in a block that reaches the end of the heap
  (`SmallHeapSpec.MallocRefuses`, an input in `SmallHeapSpec.WholeHeapRefused`), and the memheap an
  exact fit in its only free item (`MemHeapSpec.AllocRefuses`, an input in
  `MemHeapSpec.AllFreeBytesRefused`).
- With `lfree` exact, the two places of `plug_holes` that move it are never reached
  (`SmallHeap.NothingToRedirect`).
- The overflow branch of the message queue's counter is never reached (`MessageQueueSpec.NoOverflow`).

Assumptions: a flash sector has 4096 bytes and a page 256; program and erase calls succeed while
there is power, and power is lost only between two of them; the idle thread is ready or running
and is never suspended or deleted; timers that callbacks start, and periodic timers, wait at least
one tick and less than half the tick range, and `rt_timer_check` runs at every tick; the priorities of
threads that wait for an object do not change while they wait.

## Model

| member | source | states |
|---|---|---|
| Crc32.TableIsEightShifts | applications/crc32.c:3-35 | every table entry is the bit-serial register after eight steps from its index |
| Crc32.TableStepFeedsOneByte | applications/crc32.c:39-43 | one table step advances the register exactly as feeding the eight bits of the byte does |
| Crc32.Context.constructor | applications/crc32.c:37 | the register starts at all ones |
| Crc32.Context.Update | applications/crc32.c:39-43 | the update loop leaves the bit-serial register of all bytes fed |
| Crc32.Context.Final | applications/crc32.c:45-52 | the result is the complement of the register, and the register holds it too |
| Crc32.RegisterAppend | applications/boot.c:85-104 | reading in pieces of any sizes gives the register of one pass over the whole |
| Crc32.FeedIsShiftOfWord | applications/crc32.c:39-43 | up to 32 message bits can be xored in at once: the algebra behind burst detection |
| Crc32.BurstChangesRegister | applications/crc32.c:39-52 | bit strings that differ only inside a window of at most 32 bits end in different registers |
| Crc32.FourByteCorruptionDetected | applications/crc32.c:37-52 | equal-length messages that differ, but only inside four consecutive bytes, have different CRCs |
| Flash.Board.ProgramPage | board/fal_flash_port.c:158-211 | programming a page clears bits only, in that page only, or does nothing once power is gone |
| Flash.Board.EraseSector | board/fal_flash_port.c:221-243 | erasing a sector blanks it whole, or does nothing once power is gone |
| Flash.Board.Write | board/fal_flash_port.c:158-211 | the page-splitting loop programs the buffer as one run; cut anywhere, it has programmed a prefix |
| Flash.Board.Erase | board/fal_flash_port.c:221-243 | the sector loop blanks the rounded-up range; cut anywhere, it has blanked a prefix of whole sectors |
| Flash.Board.PartitionRead | packages/fal-v1.0.0/src/fal_partition.c:406-434 | reads exactly the bytes asked for, or refuses a range past the end, where address plus size does not wrap |
| Flash.Board.PartitionWrite | packages/fal-v1.0.0/src/fal_partition.c:447-475 | writes inside the partition only, or refuses and changes nothing, where address plus size does not wrap |
| Flash.Board.PartitionEraseAll | packages/fal-v1.0.0/src/fal_partition.c:524-527 | blanks the partition from its start, and no byte outside it |
| Flash.ProgrammedFurther | board/fal_flash_port.c:187-206 | programming a buffer in two consecutive parts is programming it once |
| Flash.ErasedFurther | board/fal_flash_port.c:226-238 | erasing one more sector is erasing a longer range |
| Boot.GetFirmHeader | applications/boot.c:51-83 | the header is accepted exactly when its magic and its own CRC match |
| Boot.CalcPartFirmCrc32 | applications/boot.c:85-104 | streaming the body through a small buffer computes the CRC of the whole body |
| Boot.CheckPartFirm | applications/boot.c:106-130 | accepts exactly when, byte by byte: the header CRC, magic and algorithm nibbles are right, the body is not empty and fits, and its bit-serial CRC is the stored word |
| Boot.CorruptBodyRefused | applications/boot.c:106-130 | a valid image whose body is changed only inside four consecutive bytes is refused |
| Boot.CorruptHeaderRefused | applications/boot.c:51-83 | so is one whose header is changed inside four consecutive bytes before, or exactly in, its own CRC |
| Boot.InstalledIsValid | applications/boot.c:106-181 | a partition that holds an installed copy of a valid download passes the same check |
| Boot.CopyBody | applications/boot.c:155-173 | uncut, the erase and the copy loop end with the whole body at the start of app and blanks behind it; cut anywhere, the download is untouched |
| Boot.FirmUpgrade | applications/boot.c:132-181 | a complete upgrade leaves body, blanks and trailing header byte for byte; the early return reports success and changes nothing |
| Boot.UpdateStep | applications/system.c:98-126 | an accepted download is installed, erased and flagged; cut anywhere, download loses sectors only after app holds the upgrade; anything else leaves the flash alone and still sets the flag |
| Boot.UpgradeKeepsImageIffItFits | applications/boot.c:139-143 | a complete upgrade keeps the image exactly when it fits; otherwise the early return loses it |
| Boot.ShortAppLosesImage | applications/boot.c:139-143 | with an app partition of one sector a larger valid image is lost |
| Boot.EqualPartitionsFit | board/fal_cfg.h:31-35 | with the partition table as configured every valid download fits |
| Boot.BlankStartIsNoFirm | applications/boot.c:106-130 | a download whose first sector is erased is never accepted |
| Boot.BootStartApplication | applications/boot.c:189-201 | the flag is read, cleared, and decides the jump |
| Boot.PowerCycle | applications/system.c:98-126 | one power cycle cut after any number of operations keeps the image whole in download or installed in app |
| Boot.SurviveResets | applications/system.c:98-126 | after any number of resets at any points the image is still there; an uncut cycle ends with it installed and the flag set |
| IapSlave.CompleteFrame | applications/iap_slave.c:28-60 | a frame is complete exactly when as many bytes follow command and length as the length says |
| IapSlave.RetransmissionInvisible | applications/iap_slave.c:200-246 | a sender that repeats packets is delivered exactly once per packet, in order |
| IapSlave.DeliveredIncreasing | applications/iap_slave.c:200-218 | delivered packet numbers strictly increase |
| IapSlave.SessionIgnores | applications/iap_slave.c:200-216 | a repeated or older packet leaves the session as it was |
| IapSlave.SessionGrows | applications/iap_slave.c:218-246 | a newer packet extends the flash contents by its payload, cut at the announced length |
| IapSlave.Slave.Start | applications/iap_slave.c:120-176 | the first byte picks the partition, and the other one is untouched; refused exactly for a wrong length, an unknown partition or too large an image, without a change to flash; success only with the chosen partition blank, also when the erase is skipped |
| IapSlave.Slave.Open | applications/iap_slave.c:158-176 | the erase is skipped only when nothing was written since the last START |
| IapSlave.Slave.Write | applications/iap_slave.c:178-252 | the cases of the packet number with their answers; a newer packet keeps the session: flash is the concatenated delivered payloads cut at the announced length, the rest blank; the other partition is untouched |
| IapSlave.Slave.Program | applications/iap_slave.c:218-252 | a newer packet is programmed behind what is there |
| IapSlave.Slave.Append | applications/iap_slave.c:231-246 | the payload is programmed at the write position, and the position moves on only if the write succeeded |
| IapSlave.Slave.Callback | applications/iap_slave.c:76-268 | every command keeps the session invariant; START picks the partition its fifth byte names; only START and WRITE change flash or session, only the partition in use, and each answers in its own form |
| IapSlave.TransferIsExact | applications/iap_slave.c:120-252 | a complete transfer leaves exactly the image in the partition and blanks behind it |
| RingList.InsertAfter | rt-thread/include/rtservice.h:58-66 | the new node comes right behind its anchor, and the ring stays a ring |
| RingList.InsertBefore | rt-thread/include/rtservice.h:73-81 | in front of any node, the head meaning at the end, and the ring stays a ring |
| RingList.Remove | rt-thread/include/rtservice.h:86-93 | any node, alone or not, ends up its own ring, and the others stay one |
| RingList.IsEmpty | rt-thread/include/rtservice.h:98-101 | empty exactly when nothing hangs behind the head |
| RingList.Len | rt-thread/include/rtservice.h:107-118 | the number of nodes behind the head |
| ThreadList.ThreadList.Suspend | rt-thread/src/ipc.c:109-156 | the walk along the links and the insertion are the specified insertion into the sequence of threads |
| ThreadList.ThreadList.Resume | rt-thread/src/ipc.c:178-193 | the first thread behind the head leaves the list |
| ThreadList.ThreadList.ResumeAll | rt-thread/src/ipc.c:207-237 | every thread leaves, first to last |
| ThreadList.ThreadList.Expire | rt-thread/src/ipc.c:162-164 | a timed-out thread leaves wherever it stands |
| ThreadList.EntersThere | rt-thread/src/ipc.c:121-150 | in front of the first less urgent thread is where the priority order puts it |
| WaitList.Suspend | rt-thread/src/ipc.c:109-156 | the loop inserts at the end, or in front of the first less urgent thread |
| WaitList.EntersAt | rt-thread/src/ipc.c:109-156 | at the end in FIFO order; else in front of the first less urgent thread and behind all the others |
| WaitList.InsertKeepsSorted | rt-thread/src/ipc.c:121-150 | queueing by priority keeps the list sorted |
| WaitList.InsertIsStable | rt-thread/src/ipc.c:121-150 | threads of equal priority stay in arrival order |
| WaitList.InsertDistinct | rt-thread/src/ipc.c:109-156 | a thread is on a list at most once |
| WaitList.WithoutRemoves | rt-thread/src/ipc.c:162-164 | a timeout takes out exactly that thread, and a sorted list stays sorted |
| WaitList.WithoutKeepsOrder | rt-thread/src/ipc.c:162-164 | the others stand as they stood: the list with one place cut out |
| MessageQueueSpec.TakeFreePartitions | rt-thread/src/ipc.c:2744-2822 | taking a free node keeps every node in exactly one place |
| MessageQueueSpec.LinkPartitions | rt-thread/src/ipc.c:2829-2871 | linking a node keeps every node in exactly one place and the count right |
| MessageQueueSpec.DequeuePartitions | rt-thread/src/ipc.c:3050-3139 | taking a message keeps every node in exactly one place and the count right |
| MessageQueueSpec.ReleasePartitions | rt-thread/src/ipc.c:3144-3170 | giving a node back keeps every node in exactly one place |
| MessageQueueSpec.ResetPartitions | rt-thread/src/ipc.c:3199-3230 | a reset with nodes in flight keeps every node in exactly one place |
| MessageQueueSpec.NoOverflow | rt-thread/src/ipc.c:2844-2853 | with a node in flight the queue is shorter than the pool, so the overflow branch is dead |
| MessageQueue.MessageQueue.constructor | rt-thread/src/ipc.c:2459-2504 | initialisation threads all nodes on the free list |
| MessageQueue.MessageQueue.TakeFree | rt-thread/src/ipc.c:2744-2822 | the first free node, a refusal, or a place among the waiting senders |
| MessageQueue.MessageQueue.Fill | rt-thread/src/ipc.c:2824-2827 | the unlocked copy changes only the node in flight |
| MessageQueue.MessageQueue.LinkBack | rt-thread/src/ipc.c:2829-2871 | a send links its node in behind the tail, counts it and resumes the first receiver |
| MessageQueue.MessageQueue.LinkFront | rt-thread/src/ipc.c:2962-3000 | an urgent send links its node in before the head, counts it and resumes the first receiver |
| MessageQueue.MessageQueue.Dequeue | rt-thread/src/ipc.c:3050-3139 | the first queued node, a refusal, or a place among the waiting receivers |
| MessageQueue.MessageQueue.Release | rt-thread/src/ipc.c:3144-3170 | giving a node back, on link words, is the specified step |
| MessageQueue.MessageQueue.Reset | rt-thread/src/ipc.c:3199-3230 | the reset loop moves all queued nodes to the free list |
| MessageQueueRuns.NextKeeps | rt-thread/src/ipc.c:2714-3236 | every interleaved section keeps pool, links, flights, the books on messages and wake-ups right |
| MessageQueueRuns.Run | rt-thread/src/ipc.c:2714-3236 | the invariant holds in every state of every run |
| MessageQueueRuns.NoWakeUpIsLost | rt-thread/src/ipc.c:2755-3163 | a suspended receiver implies at least as many woken receivers as messages, a suspended sender as many woken senders as free nodes |
| MessageQueueRuns.MessagesAreConserved | rt-thread/src/ipc.c:2714-3236 | messages are the bytes of send calls; each is linked at most once, then queued, taken or dropped by a reset; each one taken is with one receiver or delivered once, to a thread that asked, agreeing with what was sent up to the shorter length; plain sending is first in, first out |
| MessageQueueRuns.OrderOfTaking | rt-thread/src/ipc.c:2829-3136 | on every run, until the next link or reset, messages are taken in this order: an urgent one just linked, then the others as they stood; a plain one after them |
| MessageQueueRuns.UrgentIsNext | rt-thread/src/ipc.c:2962-3136 | on every run the next receive that takes anything gets the urgent message, and the others are left as they stood |
| MessageQueueRuns.ReceiveGetsFirst | rt-thread/src/ipc.c:3050-3136 | a receive hands out exactly the first message, whenever there is one |
| MessageQueueRuns.SendBegins | rt-thread/src/ipc.c:2744-2822 | a send starts copying its own bytes if a node is free, else it is refused or waits |
| MessageQueueRuns.InHandIsTaken | rt-thread/src/ipc.c:3122-3148 | the message that a receiver is copying out was taken, is not delivered yet, and is in no other hands |
| MessageLedger.HeadIsNew | rt-thread/src/ipc.c:3122-3134 | the head of the queue was linked and nobody has taken it |
| MessageLedger.BooksLink | rt-thread/src/ipc.c:2829-2871 | linking a message puts it into the books once, at the end the code puts it |
| MessageLedger.BooksTake | rt-thread/src/ipc.c:3122-3136 | taking the head hands that message, and no other, to the receiver |
| MessageLedger.BooksDeliver | rt-thread/src/ipc.c:3141-3148 | the buffer handed over is accounted to the message that was taken |
| MessageLedger.BooksDiscard | rt-thread/src/ipc.c:3199-3230 | a reset drops what is queued and nothing in flight |
| MessageQueueRuns.LinkWakes | rt-thread/src/ipc.c:2855-2866 | linking a message wakes a receiver for it |
| MessageQueueRuns.FinishWakes | rt-thread/src/ipc.c:3150-3163 | giving a node back wakes a sender for it |
| Mailbox.Mailbox.Send | rt-thread/src/ipc.c:1999-2096 | the ring buffer refines the deque: a mail goes to the back or the sender waits |
| Mailbox.Mailbox.Urgent | rt-thread/src/ipc.c:2141-2193 | an urgent mail goes to the front of the ring, or is refused when it is full |
| Mailbox.Mailbox.Recv | rt-thread/src/ipc.c:2243-2342 | the oldest mail is taken, and the offsets still frame the content |
| Mailbox.Mailbox.Reset | rt-thread/src/ipc.c:2361-2393 | a reset empties ring and wait lists |
| MailboxRuns.EveryRunKeeps | rt-thread/src/ipc.c:1970-2393 | the invariant holds in every state of every run |
| MailboxRuns.NoWakeUpIsLost | rt-thread/src/ipc.c:1999-2335 | no suspended thread is left without enough others already woken, through timeouts, newcomers, urgent mail and resets |
| MailboxRuns.MailIsConserved | rt-thread/src/ipc.c:1970-2393 | no mail is lost, duplicated or invented; without urgent mail and resets they arrive in sending order |
| MailboxRuns.UrgentIsNext | rt-thread/src/ipc.c:2141-2342 | on every run urgent mail is received next, and the others keep their order |
| MailboxRuns.MailGoesLast | rt-thread/src/ipc.c:1999-2342 | on every run mail is received after everything that was there |
| Semaphore.Semaphore.Take | rt-thread/src/ipc.c:464-549 | a positive count is always taken from; else the thread times out, or it enters the linked wait list |
| Semaphore.Semaphore.Release | rt-thread/src/ipc.c:586-634 | the first waiting thread is resumed whenever there is one; else the token is counted, or the counter is full |
| Semaphore.Semaphore.Reset | rt-thread/src/ipc.c:652-684 | a reset wakes everybody, first to last, and sets the count |
| Semaphore.TokensAreConserved | rt-thread/src/ipc.c:464-684 | positive count and waiting threads exclude each other, and tokens are conserved since the last reset |
| Semaphore.TokensArePassedOn | rt-thread/src/ipc.c:464-634 | on every run a take with tokens succeeds and a release with waiters hands its token to the first |
| Mutex.Mutex.Take | rt-thread/src/ipc.c:893-1038 | a free mutex and a recursive take succeed and are counted; a contended take raises the owner to the taker, no further, and times out or enters the linked wait list |
| Mutex.Mutex.Release | rt-thread/src/ipc.c:1076-1184 | only the owner releases; a release before the last only counts down; the last one restores its priority and hands over to the first waiter, or frees the mutex |
| Mutex.HandOver | rt-thread/src/ipc.c:1127-1150 | the new owner is the most urgent waiter, so nobody behind it needs it raised |
| Mutex.NextKeeps | rt-thread/src/ipc.c:893-1184 | every step keeps owner, count and holds consistent, the queue sorted, and the inheritance |
| Mutex.OwnerInheritsFromEveryWaiter | rt-thread/src/ipc.c:893-1184 | on every run the owner runs at least as urgently as every waiter |
| Mutex.FinalReleaseRestoresPriority | rt-thread/src/ipc.c:1110-1125 | on every run the last release leaves the thread at the priority it had |
| Mutex.FreeMeansFree | rt-thread/src/ipc.c:893-1184 | no owner, a count of one and no holds coincide on every run |
| Mutex.HoldsAreCounted | rt-thread/src/ipc.c:893-1184 | on every run the hold count of the owner is its successful takes less its releases, and nobody else has more takes than releases |
| Mutex.OwnerUntilLastRelease | rt-thread/src/ipc.c:1108-1125 | on every run an owner with k holds stays the owner through fewer than k releases of its own |
| Mutex.LastReleaseGivesUp | rt-thread/src/ipc.c:1110-1165 | on every run the release of the last hold gives the mutex to the first waiter, or to nobody |
| Event.Event.Send | rt-thread/src/ipc.c:1423-1512 | the list walk wakes exactly what the specified pass wakes; the flags left are the old and the sent ones less what woken threads cleared |
| Event.Event.Recv | rt-thread/src/ipc.c:1552-1667 | on the bits: the flags asked for and set are received, and cleared if wanted; else the thread times out or waits |
| Event.ScanLeavesUnsatisfied | rt-thread/src/ipc.c:1440-1500 | after a pass nobody left waiting is satisfied by the flags left |
| Event.ScanIsExclusive | rt-thread/src/ipc.c:1470-1490 | flags consumed by a clearing thread reach no later thread of the pass |
| Event.ScanWakesSatisfied | rt-thread/src/ipc.c:1440-1500 | every woken thread was waiting and its condition held when it was chosen |
| Event.ScanKeepsOrder | rt-thread/src/ipc.c:1440-1500 | those left waiting are a subsequence of those who waited |
| Event.ScanAccounts | rt-thread/src/ipc.c:1440-1500 | a pass leaves exactly the flags that no clearing thread received |
| Event.ScanSplits | rt-thread/src/ipc.c:1440-1500 | everybody on the list is left waiting or woken |
| Event.NobodySleepsSatisfied | rt-thread/src/ipc.c:1423-1713 | on every run no thread sleeps whose condition the current flags meet |
| TimerRows.InsertionTestExact | rt-thread/src/timer.c:427-435 | the wrapped insertion test agrees with the true deadlines exactly when they lie within the half range |
| TimerRows.ExpiryTestExact | rt-thread/src/timer.c:608-612 | the wrapped expiry test agrees with the true clock exactly when the deadline lies within the half range |
| TimerRows.SplitIsLinear | rt-thread/src/timer.c:410-452 | inserting where a row splits is what a linear scan does, behind equal deadlines |
| TimerRows.InsertedSelection | rt-thread/src/timer.c:441-459 | inserting at the split of both rows keeps the upper row a subsequence of the lower |
| TimerRows.RemovedSelection | rt-thread/src/timer.c:166-174 | removal keeps the upper row a subsequence of the lower |
| TimerList.StartKeeps | rt-thread/src/timer.c:365-486 | starting a timer keeps the list ordered and within the window |
| TimerList.StopKeeps | rt-thread/src/timer.c:496-520 | stopping a timer keeps the list ordered and within the window |
| TimerList.StartSets | rt-thread/src/timer.c:392-398 | starting sets the deadline init_tick ahead, whatever the kind of timer, and touches no other timer |
| TimerList.LastActionDecides | rt-thread/src/timer.c:612-646 | the last start or stop of a timer in a callback decides its state |
| TimerList.FireShrinks | rt-thread/src/timer.c:612-646 | one firing with any callback keeps the list and leaves fewer timers due: the loop ends |
| TimerList.CheckFiresInOrder | rt-thread/src/timer.c:587-654 | a check ends with nothing due and fires in list order, each timer at most once |
| TimerList.FiredDeadlines | rt-thread/src/timer.c:587-654 | the deadlines of what one check fires never decrease |
| TimerList.DueTimersFire | rt-thread/src/timer.c:587-654 | a due timer that no callback names fires, and is listed again exactly if periodic and active |
| TimerList.CheckLeavesOthers | rt-thread/src/timer.c:587-654 | a timer that is not due and not named stays as it is |
| TimerList.NextKeeps | rt-thread/src/clock.c:65-99 | every tick with its check, and every start and stop between, leaves nothing listed behind the clock |
| TimerList.Run | rt-thread/src/clock.c:65-99 | on every run all deadlines stay within the window that 32 bits can tell apart |
| TimerList.FiresOnTime | rt-thread/src/clock.c:65-99 | after any run a timer fires when the clock reaches its deadline, neither before nor after |
| TimerList.FiresAfterInitTicks | rt-thread/src/timer.c:365-654 | on every run a timer started with init_tick k >= 1 that nobody names afterwards fires in exactly the k-th tick |
| Timer.Height | rt-thread/src/timer.c:444-460 | the insertion counter selects between one and all rows |
| Timer.TimerSystem.Remove | rt-thread/src/timer.c:166-174 | the timer leaves every row and the expired list |
| Timer.TimerSystem.ScanRow | rt-thread/src/timer.c:413-435 | the scan of one row ends at its split |
| Timer.TimerSystem.Descend | rt-thread/src/timer.c:410-439 | the multi-row descent ends at the split of every row |
| Timer.TimerSystem.Link | rt-thread/src/timer.c:447-459 | linking into the selected rows is the linear insertion in each |
| Timer.TimerSystem.Start | rt-thread/src/timer.c:365-486 | for any number of rows the skip list does what the plain list does; the deadline is init_tick ahead, and the tick value its wrapped sum |
| Timer.TimerSystem.Stop | rt-thread/src/timer.c:496-520 | stopping does what it does on the plain list, and an active timer is in no row afterwards |
| Timer.TimerSystem.Fire | rt-thread/src/timer.c:612-646 | one iteration of the check, with any callback, does what it does on the plain list |
| Timer.TimerSystem.Check | rt-thread/src/timer.c:587-654 | the whole check, on wrapped ticks, does what it does on the plain list and true deadlines |
| Timer.TimerSystem.TickIncrease | rt-thread/src/clock.c:65-99 | the tick wraps while the true clock goes on, and afterwards nothing listed is behind |
| BlockList.PayloadsDisjoint | rt-thread/src/mem.c:95-113 | payloads of different blocks are disjoint and in bounds |
| BlockList.LivePayloadsDisjoint | rt-thread/src/mem.c:271-616 | live payloads are word-aligned, in bounds and never overlap one another or a foreign header |
| BlockList.TakeChanges | rt-thread/src/mem.c:304-377 | allocating from a block adds exactly one payload of at least the size and counts it exactly |
| BlockList.FreeChanges | rt-thread/src/mem.c:553-616 | freeing removes exactly that payload, coalesces, and counts exactly |
| BlockList.ShrinkChanges | rt-thread/src/mem.c:471-504 | shrinking moves the end of that payload and nothing else |
| BlockList.FreeCoalesces | rt-thread/src/mem.c:156-194 | after the merges no two neighbours are free |
| BlockList.FreeUndoesTake | rt-thread/src/mem.c:271-616 | freeing what was just allocated restores the block list |
| SmallHeapSpec.Align | rt-thread/src/mem.c:288 | rounding up on 32 bits reaches the size exactly when it does not wrap |
| SmallHeapSpec.MallocRefuses | rt-thread/src/mem.c:288-404 | refused exactly when 0, over the heap, or every free block is too small, the exact fit at the heap end included |
| SmallHeapSpec.MallocGrants | rt-thread/src/mem.c:271-409 | a grant is one new live payload, as large as asked exactly when rounding does not wrap |
| SmallHeapSpec.GrantedExtent | rt-thread/src/mem.c:304-377 | the block is the first that is large enough, cut to the size exactly if the rest is worth a block |
| SmallHeapSpec.ReallocChanges | rt-thread/src/mem.c:421-516 | what a resize does to the live payloads in every branch |
| SmallHeapSpec.ReallocNullKeepsBlock | rt-thread/src/mem.c:431-442 | for a non-zero size NULL leaves the block live exactly when rounding does not wrap to 0 |
| SmallHeapSpec.ReallocRefuses | rt-thread/src/mem.c:421-516 | exactly when a resize answers NULL, and exactly when it stays in place |
| SmallHeapSpec.ResizedExtent | rt-thread/src/mem.c:455-504 | a block resized in place has exactly the rounded size |
| SmallHeapSpec.WholeHeapRefused | rt-thread/src/mem.c:305 | a new heap of 100 free bytes refuses 100 bytes |
| SmallHeapSpec.MallocWraps | rt-thread/src/mem.c:288-300 | a new heap grants 2^32 - 1 bytes, with 12 bytes |
| SmallHeapSpec.ReallocWraps | rt-thread/src/mem.c:431-442 | resizing the only block to 2^32 - 1 bytes answers NULL and frees it |
| BlockList.LowestFreeIsLeast | rt-thread/src/mem.c:379-386 | what lfree must be: the least offset of a free block, or the end |
| BlockList.LowestAfterTake | rt-thread/src/mem.c:349-356 | taking a block above the lowest leaves the lowest |
| SmallHeapSpec.StepKeeps | rt-thread/src/mem.c:271-616 | every call keeps the heap good and every payload that it does not name |
| SmallHeapSpec.Run | rt-thread/src/mem.c:271-616 | on every run the blocks tile the heap and no two neighbours are free |
| SmallHeapSpec.LivePayloadStays | rt-thread/src/mem.c:271-616 | a payload that is neither freed nor resized stays live and in place over every run |
| SmallHeap.SmallHeap.constructor | rt-thread/src/mem.c:203-256 | one free block, and the end block that links to itself |
| SmallHeap.SmallHeap.PlugHoles | rt-thread/src/mem.c:156-194 | the header writes of the merges, and where they move lfree |
| SmallHeap.NothingToRedirect | rt-thread/src/mem.c:168-191 | with lfree exact, neither merge ever moves it |
| SmallHeap.SmallHeap.Malloc | rt-thread/src/mem.c:271-409 | the scan from lfree finds what a first-fit scan from offset 0 finds; counters and lfree stay exact; no live byte is written |
| SmallHeap.SmallHeap.Claim | rt-thread/src/mem.c:304-386 | splitting or taking whole, and lfree moved on to the next free block |
| SmallHeap.SmallHeap.Free | rt-thread/src/mem.c:553-616 | the block is merged and counted off; no other live byte is written; NULL and foreign pointers change nothing |
| SmallHeap.SmallHeap.ReallocLive | rt-thread/src/mem.c:421-516 | the bytes that still fit are kept, every other live byte too, NULL changes none, and max_mem is the running maximum in every branch |
| SmallHeap.SmallHeap.ReallocAny | rt-thread/src/mem.c:421-516 | the order of the tests for size, NULL and foreign pointers, with the bytes kept and max_mem as the running maximum |
| SmallHeap.SmallHeap.Store | rt-thread/src/mem.c:271-409 | a program that writes inside its payload cannot harm a header |
| MemHeapSpec.RoomWithinAvailable | rt-thread/src/memheap.c:241 | a free block has as much room as all of them only if it is the only one |
| MemHeapSpec.AllocRefuses | rt-thread/src/memheap.c:241-269 | refused exactly when every free block is too small, or the only free block is an exact fit |
| MemHeapSpec.AllocGrants | rt-thread/src/memheap.c:224-378 | a grant keeps both lists exact and adds one payload, as large as asked exactly when rounding does not wrap |
| MemHeapSpec.GrantedExtent | rt-thread/src/memheap.c:241-345 | the item is the first on the free list that is large enough, cut to the size exactly if the rest is worth an item, which then heads the list |
| MemHeapSpec.AllFreeBytesRefused | rt-thread/src/memheap.c:241 | a new pool of 48 free bytes refuses 48 bytes |
| MemHeapSpec.AllocWraps | rt-thread/src/memheap.c:231-234 | a new pool grants 2^32 - 1 bytes, with 12 bytes |
| MemHeapSpec.TakeFromChanges | rt-thread/src/memheap.c:274-345 | what is subtracted from available_size is what the free blocks lose |
| MemHeapSpec.ReleaseChanges | rt-thread/src/memheap.c:619-727 | both merges keep both lists exact, and what is added to available_size is what the free blocks gain |
| MemHeapSpec.ReleasedOrder | rt-thread/src/memheap.c:662-712 | the freed item heads the free list unless merged into the item before it; the others keep their order |
| MemHeapSpec.GrowChanges | rt-thread/src/memheap.c:444-516 | where the sums do not wrap, growing in place moves the end of the payload and keeps both lists exact |
| MemHeapSpec.GrowBreaks | rt-thread/src/memheap.c:460-503 | where they wrap, the new item header lies across the header of the block and the start of its payload |
| MemHeapSpec.CutChanges | rt-thread/src/memheap.c:533-610 | cutting in place moves the end of the payload, merges, and keeps both lists and the count exact |
| MemHeapSpec.ReallocChanges | rt-thread/src/memheap.c:393-610 | unless the request breaks the pool: for a non-zero size NULL changes nothing; otherwise every other payload stays |
| MemHeapSpec.ReallocBreaks | rt-thread/src/memheap.c:460 | a breaking request is answered with success and writes an item header over a live payload |
| MemHeapSpec.ReallocGrants | rt-thread/src/memheap.c:393-610 | the pool stays good exactly unless newsize lies between 2^32 - 15 and 2^32 - 4 with a free item behind the block; the answer also holds the size asked for exactly when, besides, newsize is at most 2^32 - 4 |
| MemHeapSpec.ReallocRefuses | rt-thread/src/memheap.c:393-610 | exactly when a resize answers NULL, and exactly when it stays in place |
| MemHeapSpec.ResizedExtent | rt-thread/src/memheap.c:424-610 | a block resized in place has exactly the rounded size if it grew or was cut, else its old one |
| MemHeapSpec.ReallocWraps | rt-thread/src/memheap.c:460 | a pool with one block of 24 bytes and a free rest breaks on a resize to 2^32 - 4 bytes |
| MemHeapSpec.StepKeeps | rt-thread/src/memheap.c:224-727 | a call keeps the pool good exactly when it is no such request, and then keeps every payload that it does not name |
| MemHeapSpec.ModestRuns | rt-thread/src/memheap.c:224-727 | without requests in the last 15 bytes below 2^32 no run breaks the pool |
| MemHeapSpec.Run | rt-thread/src/memheap.c:224-727 | a run keeps the blocks tiled and coalesced and exactly the free ones listed, or ends at a breaking request |
| MemHeapSpec.LivePayloadStays | rt-thread/src/memheap.c:224-727 | a payload that is neither freed nor resized stays live and in place over every run that no request breaks |
| MemHeap.UnlinkRing | rt-thread/src/memheap.c:306-307 | unlinking keeps the doubly linked free ring |
| MemHeap.LinkRing | rt-thread/src/memheap.c:312-315 | linking at the head keeps the doubly linked free ring |
| MemHeap.SplitRing | rt-thread/src/memheap.c:300-303 | a new item keeps the address-ordered ring |
| MemHeap.DropRing | rt-thread/src/memheap.c:677-681 | dropping an item keeps the address-ordered ring |
| MemHeap.MemHeap.constructor | rt-thread/src/memheap.c:119-191 | one free item, the used tail, and the free-list header |
| MemHeap.MemHeap.Alloc | rt-thread/src/memheap.c:224-378 | the walk along the free list, on links, is the specified first fit; max_used_size is the running maximum |
| MemHeap.MemHeap.Free | rt-thread/src/memheap.c:619-727 | the left and right merges, on links, are the specified release; NULL changes nothing |
| MemHeap.MemHeap.GrowInPlace | rt-thread/src/memheap.c:444-516 | growing over the next free item, on links and with 32-bit sums, is the specified step, and keeps the pool exactly when the sums do not wrap |
| MemHeap.GrowCounts | rt-thread/src/memheap.c:463-466 | the 32-bit subtraction from available_size leaves the sum of the free blocks, wrapped or not |
| MemHeap.MemHeap.CutInPlace | rt-thread/src/memheap.c:533-610 | splitting off the rest and merging it, on links, is the specified step |
| MemHeap.MemHeap.Realloc | rt-thread/src/memheap.c:393-610 | every branch on links with 32-bit sums; unless the request breaks the pool the old bytes are at the answer and no other byte is written; max_used_size is the running maximum |
| MemHeap.MemHeap.ReallocAny | rt-thread/src/memheap.c:393-610 | NULL is allocated for, a live payload resized, and nothing is done for NULL and size 0 |
| PageList.Canonical | rt-thread/src/slab.c:241-334 | the page list is determined by the set of free pages |
| PageList.AllocTakes | rt-thread/src/slab.c:241-275 | an allocation takes n consecutive free pages and no other |
| PageList.AllocFirst | rt-thread/src/slab.c:241-275 | the pages come from the front of the first run that is long enough |
| PageList.AllocRefuses | rt-thread/src/slab.c:241-275 | refused exactly when no run has that many pages |
| PageList.FreeAdds | rt-thread/src/slab.c:284-334 | freeing adds exactly those pages, keeps runs ordered, disjoint and non-adjacent |
| PageList.FreeUndoesAlloc | rt-thread/src/slab.c:241-334 | freeing what was just allocated restores the list |
| PageList.FreesCommute | rt-thread/src/slab.c:284-334 | the order of frees does not matter |
| Pages.Pages.Alloc | rt-thread/src/slab.c:241-275 | the walk along the links is the specified first fit |
| Pages.Pages.Free | rt-thread/src/slab.c:284-334 | the walk and its three merges, on links, are the specified free |
| ZoneSpec.ZoneIndexIsLeast | rt-thread/src/slab.c:412-470 | each request gets the least class that holds it and wastes at most seven bytes or an eighth |
| ZoneSpec.FreshZone | rt-thread/src/slab.c:636-663 | a new zone holds at least two chunks, all inside it, one of them live |
| ZoneSpec.FreshZoneIsFull | rt-thread/src/slab.c:636-663 | a new zone holds as many chunks as fit behind its aligned header |
| ZoneSpec.LiveCount | rt-thread/src/slab.c:169-183 | z_nfree counts exactly the chunks of the zone that are not live |
| ZoneSpec.TakeLives | rt-thread/src/slab.c:550-577 | a chunk taken was not live and is now |
| ZoneSpec.GiveLives | rt-thread/src/slab.c:844-860 | a chunk given back is no longer live |
| ZoneSpec.LiveDisjoint | rt-thread/src/slab.c:489-678 | live chunks of a zone are disjoint |
| SlabSpec.TakePages | rt-thread/src/slab.c:609-633 | taking pages keeps every page free or in exactly one block |
| SlabSpec.GivePages | rt-thread/src/slab.c:891-915 | giving pages back keeps every page free or in exactly one block |
| SlabSpec.LiveDisjointly | rt-thread/src/slab.c:489-678 | live blocks, chunks and large ones, are pairwise disjoint |
| SlabSpec.MallocOk | rt-thread/src/slab.c:489-678 | a granted pointer is the one new live pointer, its block has the size of its class or whole pages and holds the request, and page, usage, zone and list bookkeeping stays exact |
| SlabSpec.MallocRefuses | rt-thread/src/slab.c:489-678 | refused exactly for 0, for a size whose rounding to pages wraps, or with neither a listed zone nor a spare zone nor a long enough run of pages |
| SlabSpec.FreeSmallOk | rt-thread/src/slab.c:839-918 | exactly that chunk is no longer live, and a zone is given up only when none of its chunks is live |
| SlabSpec.FreeSmallGivesUp | rt-thread/src/slab.c:862-918 | a zone is given up exactly when its last live chunk goes and another zone of the class has a free chunk; it becomes spare, or its pages free if two are spare already |
| SlabSpec.FreeLargeOk | rt-thread/src/slab.c:811-833 | exactly that large block is no longer live and its pages are free |
| SlabSpec.FreeOk | rt-thread/src/slab.c:785-918 | the usage of a live pointer's page finds its block, and exactly that pointer is no longer live |
| SlabSpec.Run | rt-thread/src/slab.c:489-918 | pages conserved, zones counted and lists exact on every run |
| SlabSpec.LiveStays | rt-thread/src/slab.c:489-918 | a pointer that is not freed stays live over every run |
| SlabHeap.SlabHeap.constructor | rt-thread/src/slab.c:355-406 | zone size chosen, pages set up, the memusage table taken off |
| SlabHeap.SlabHeap.MallocSmall | rt-thread/src/slab.c:543-668 | a chunk from a listed zone, a spare zone, or new pages |
| SlabHeap.SlabHeap.Malloc | rt-thread/src/slab.c:489-678 | the whole allocation is the specified step |
| SlabHeap.SlabHeap.FreeSmall | rt-thread/src/slab.c:839-918 | relisting, retiring to the spare list, and release beyond two spare zones |
| SlabHeap.SlabHeap.FreePtr | rt-thread/src/slab.c:785-918 | the whole release is the specified step; NULL changes nothing |
| ReadyBits.BitUpdates | rt-thread/src/scheduler.c:733-739 | setting or clearing a priority bit changes that bit and no other |
| ReadyBits.BitmapIsLowest | rt-thread/src/kservice.c:1363-1381 | the table gives the lowest set bit of every byte but 0 |
| ReadyBits.FfsIsLowest | rt-thread/src/kservice.c:1393-1407 | the result numbers the lowest set bit from 1, and is 0 exactly for 0 |
| SchedulerSpec.ScheduleBest | rt-thread/src/scheduler.c:416-538 | unlocked, the best thread runs afterwards; locked, nothing changes |
| SchedulerSpec.PreemptedOnlyBy | rt-thread/src/scheduler.c:435-452 | a running thread yields the processor only to a better one, or to an equal one after a yield |
| SchedulerSpec.SwitchOk | rt-thread/src/scheduler.c:454-469 | a switch keeps the ready lists exact |
| SchedulerSpec.ScheduleMoves | rt-thread/src/scheduler.c:435-469 | the best thread leaves the head of its list, and the one that was running goes to the end of its own |
| SchedulerSpec.SuspendOk | rt-thread/src/thread.c:810-849 | suspending keeps the ready lists exact |
| SchedulerSpec.SuspendDoes | rt-thread/src/thread.c:810-849 | a ready or running thread becomes suspended and leaves its list, the others stay as they stood; any other thread is left alone |
| SchedulerSpec.ResumeOk | rt-thread/src/thread.c:860-894 | resuming keeps the ready lists exact, also for the current thread |
| SchedulerSpec.ResumeDoes | rt-thread/src/thread.c:860-894 | a suspended thread becomes ready behind its equals, or running if it is current; any other thread is left alone |
| SchedulerSpec.ChangePriorityOk | rt-thread/src/thread.c:705-740 | changing the priority of any thread keeps the ready lists exact |
| SchedulerSpec.ChangePriorityDoes | rt-thread/src/thread.c:705-740 | the priority is set, and a ready thread moves to the end of its new list |
| SchedulerSpec.NextOk | rt-thread/src/scheduler.c:416-973 | every operation keeps the ready lists exact |
| SchedulerSpec.Run | rt-thread/src/scheduler.c:416-973 | on every run each ready thread is queued exactly once at its priority, and the current one never |
| SchedulerSpec.BestAlwaysRuns | rt-thread/src/scheduler.c:416-973 | whenever a run ends in rt_schedule with the scheduler unlocked, the best thread runs |
| SchedulerSpec.YieldRotates | rt-thread/src/thread.c:525-538 | a yield moves the running thread to the back of its ring |
| SchedulerSpec.RoundRobin | rt-thread/src/scheduler.c:435-469 | after k yields the k-th thread of the ring runs, and a full round restores the order |
| SchedulerSpec.SliceEndYields | rt-thread/src/clock.c:79-91 | the last tick of a slice does what a yield does |
| SchedulerSpec.SpendDoes | rt-thread/src/clock.c:79-91 | the slice counts down on 32 bits and starts over at zero with a yield |
| Scheduler.Scheduler.Insert | rt-thread/src/scheduler.c:711-745 | list and bitmap after an insertion |
| Scheduler.Scheduler.Remove | rt-thread/src/scheduler.c:808-838 | list and bitmap after a removal |
| Scheduler.Scheduler.HighestPriority | rt-thread/src/scheduler.c:162-184 | the bitmap lookup names the head of the best non-empty list |
| Scheduler.Scheduler.Schedule | rt-thread/src/scheduler.c:416-538 | the whole scheduling pass, on bitmap and lists, is the specified step; unlocked, the best thread runs |
| Scheduler.Scheduler.Suspend | rt-thread/src/thread.c:810-849 | suspending, on bitmap and lists: the new status, and no list holds the thread |
| Scheduler.Scheduler.Resume | rt-thread/src/thread.c:860-894 | resuming, on bitmap and lists: the new status, and the place at the end of its list |
| Scheduler.Scheduler.ChangePriority | rt-thread/src/thread.c:705-740 | the new priority, on bitmap and lists, and a ready thread at the end of its new list |
| Scheduler.Scheduler.Yield | rt-thread/src/thread.c:525-538 | yielding, on bitmap and lists |
| Scheduler.Scheduler.TickIncrease | rt-thread/src/clock.c:65-95 | the time slice runs down and ends in a yield |
| Scheduler.Scheduler.EnterCritical | rt-thread/src/scheduler.c:884-899 | the lock nests |
| Scheduler.Scheduler.ExitCritical | rt-thread/src/scheduler.c:948-973 | the count goes down to no less than zero; at zero the best thread runs |

## Left out

- Everything under `RT_USING_SMP`, hooks, memory tracing, shell commands and debug output.
- Context switching itself, stacks, interrupt registers and caches: a switch is a change of the current thread.
- Soft timers (the timer thread) and `rt_timer_control`: same list, or a field assignment.
- Timer rows, ready lists, the wait lists of mailbox, message queue and event, and the slab's zone and chunk lists are sequences here, not node links; `RingList` proves the link operations once, `ThreadList` that the wait-list operations are what the links compute, and `Semaphore` and `Mutex` stand on `ThreadList`.
- Flash.Board.PartitionRead: does not say what happens when address plus size wraps at 2^32, because the read then leaves the partition; the callers modelled here are proved never to reach it.
- Flash.Board.PartitionWrite: does not say what happens when address plus size wraps at 2^32, likewise.
- MemHeap.GrowInPlace: after a growth whose sums wrapped, the model says where the new header lies and that both rings still lead through it; which bytes of the overlapped header and payload then read back changed is not modelled.
- Deleting or detaching a kernel object while threads wait for it.
- Nested priority inheritance: the code does not provide it; a thread holds at most one mutex in the model.
- Event receive with neither AND nor OR: the code asserts, the model's mode type has no such value.
- An invalid app is still started when download holds no valid image: a reset to the first branch of the boot loop, no claim is made about what then runs.
- MemHeap.Realloc: the bytes of item headers are kept apart from payload bytes, so that headers do not overwrite live payloads is `BlockList.LivePayloadsDisjoint` and not a statement about one memory, as it is in `SmallHeap`.
- SlabHeap.Malloc: the byte counters `used_mem` and `max_mem` of the slab allocator, and the contents of chunks, are not modelled; neither is its `rt_realloc`, which copies and frees through the two operations that are.
- `rt_calloc` of all allocators and `rt_memheap_detach`.
- The error returns of the first partial page in the flash `write`: an unsigned comparison hides them.
- `applications/iap.c` framing, keys, SD card and web update: loops around libraries that are not part of this model.
- Starting and detaching a thread are steps of `SchedulerSpec` only: they are made of the insertion and removal that `Scheduler` does in place.
- Memory pools, objects, devices, signals and the idle thread's clean-up.
