# A verified model of the kernel core

This project models the parts of a small AArch64 teaching kernel where a mistake would be hard
to see in a test, and proves what they are for:

- **Page tables** (`Bits`, `Descriptors`, `DescriptorBits`, `PageTables`, `PageWalk`, `FrameMap`,
  `LinkedList`).  Physical memory is a map from word addresses to words.  `PageTable` builds the
  four-level tables in it as `mmu.c` does.  Its invariant says that the tables are a tree: every table frame is referenced
  by one descriptor at one level, none is handed out twice, and frames not yet handed out hold
  zeros.  From that follows that mapping a page changes the translation of that page and of no
  other, as the hardware walk of the Arm architecture sees it (DDI 0487, VMSAv8-64 translation
  table format descriptors).  `FrameMap` composes all of `mmu_init`, down to the lists of frames.
- **Interrupt table** (`IrqTable`, `IrqDrift`).  The linear-probing hash map with tombstones and
  rehash stands for a finite map, after every sequence of operations.
- **Tasks** (`Scheduler`, `SchedulerRuns`, `Kernel`, `KernelRuns`, `ContextSwitch`, `Assembly`,
  `KernelHeap`).  `Scheduler` is a state machine over tasks, run queues, interrupt levels and
  suspended calls, and `SchedulerRuns` holds what is true of whole runs of it.  `Kernel` is the code on objects with
  list pointers; every method is tied to a step of that machine, and `KernelRuns` drives it through
  whole runs.  `ContextSwitch` is a second machine, over registers and stack memory, and
  `Assembly` has its steps instruction by instruction.
- **Printing** (`Printf`, `PrintfDirectives`, `PrintfRunner`, `PrintfStandard`).  The format
  machine as functions, its meaning over whole format strings, the buffered runner that
  implements it, and when the outcome is what section 7.21.6.1 of ISO C11 asks for.
- **Interrupt controller** (`Gic`).  The acknowledge, fire and end-of-interrupt loop on top of the
  interrupt table (GICv2, IHI 0048B, sections 4.4.4 and 4.4.5).

`dafny verify dfyconfig.toml` checks everything.

## Assumptions

- One core, and `mi_switch` is one step up to `md_switch`: the lists are edited at
  kern/task/task.c:155 before interrupts are masked at kern/task/task.c:165.  `task_start`
  (kern/task/task.c:119) and the calls on the interrupt table, which edit it with interrupts on
  (kern/irq.c:98-104), are one step each too: no trap falls between their stores.
- The frames behind the kernel image are zero at boot; no code clears a fresh table
  (kern/arch/aarch64/mmu.c:295).
- There is one memory region, starting at address 0, as in kern/arch/aarch64/boot.c:7-10.
- Pages are mapped below level 0 entry 256: the upper half is filled with ready-made tables.
  Physical addresses given to `mmu_map` are page-aligned and below 2 to the 48.
- In runs of the interrupt table no id is registered twice at a time, and the two reserved ids are
  not unregistered; what one such call does is stated at `Register` and `Unregister`.  The interrupt
  controller does not map an interrupt to the tombstone id.
- Interrupt handlers do not lower the interrupt level, and do not change the interrupt table;
  the result of a callback is a function of its pointer and its data.
- Compiled code keeps to its own stack: it writes neither pcbs, nor the stacks of other tasks, nor
  the frames it is itself suspended in.  `KernelHeap` shows that the stacks are disjoint.

## Where the code falls short

Each of these is a lemma with the exact condition, or a method with the exact effect.

- kern/irq.c:103 and kern/irq.c:157 step `allocated`, while the load factor at kern/irq.c:88-91
  counts `used`.  `IrqTable` has the counter that is meant.  `IrqDrift` has the code as written, for
  all real ids: no run ever rehashes; while removals find their entries, and no longer, the live
  entries are what has been registered; and then a search agrees with it exactly if nothing is
  registered, or the home slot `id % allocated` is inside the block and a registered id has an entry
  at or above that slot with no NULL before it, or an absent id has a NULL there.  Over the ids 2 to
  7, whose slots the drift cannot move, every registered id is found, and a search reads past the
  block exactly if the id is not registered, another one is, and every id from this one to 7 was
  registered at some time.  Directly after a first registration the id is found exactly if it is
  below 8 modulo 72, and 72 is found only until another id is registered.
- `irq_register` does not look whether the id is registered already: the new callback answers
  exactly if a tombstone precedes the old entry and the table is not rehashed.  `irq_unregister`
  does not reject the reserved ids, and then miscounts `used`.
- `mmu_map` gives the kernel write access when neither READ nor WRITE is asked for, and with WRITE,
  EXEC and USER together the kernel cannot execute the page.
- kern/arch/aarch64/mmu.c:53-68 starts over at the beginning of the second region each time the
  first is full, so with several regions frames repeat (`FrameRepeatsIff`).
- `page_table_frames` is never initialised, so the first `ll_insert` into it goes through a null
  pointer; `ll_unlink` (kern/lib/linked_list.h:20-29) clears `next` before it passes it on and
  destroys the list; and `physaddr_to_frame` (kern/arch/aarch64/mmu.c:156) finds the right frame
  exactly in an area that starts at address 0.  `FrameMap` has the first two repaired.  Even so,
  `page_table_frames` ends up with the frames that pages map to: the frames of the page tables
  themselves stay on `free_frames`, against the comments at kern/arch/aarch64/mmu.c:39 and 44.
- `task_exit` with nobody else ready leaves its task both current and a zombie, and destroys the list
  of zombies if there were any (`Scheduling.MiSwitchAway`, `Scheduling.StrandedIsNoList`).
- `kzalloc` does not look at the end of its heap, and never returns NULL: with nothing else
  allocated, the bootstrap task and three more fit.
- The printer: right padding of a field wider than its width (lib/libc/printf.c:109), zeros before
  the sign or the base prefix (lib/libc/printf.c:81), `%%` that stays in format mode
  (lib/libc/printf.c:279), a signed `%x` (lib/libc/printf.c:272), and a precision that lengthens
  strings where the standard cuts them (lib/libc/printf.c:75).
- `gic_400_handle` masks the first id with 0x2ff, which drops bit 8, and does not compare it with
  the spurious id (drivers/aarch64/gic_400.c:52).

## Model

| member | source | states |
|---|---|---|
| Descriptors.AccessMatchesFlags | kern/arch/aarch64/mmu.c:316-348 | The rights encoded in a leaf are the ones the flags ask for, exactly when the flags include READ or WRITE, and not WRITE, EXEC and USER together |
| Descriptors.AccessExamples | kern/arch/aarch64/mmu.c:316-348 | Without flags the kernel may write; with WRITE, EXEC and USER it may not execute |
| Bits.OrField | kern/arch/aarch64/mmu.c:317-348 | Or-ing a field into clear bits of any word adds it |
| Bits.OrSet | kern/arch/aarch64/mmu.c:330-336 | Or-ing in a bit that is set, as UXN may be, changes nothing |
| DescriptorBits.FlagsEncode | kern/arch/aarch64/mmu.c:348 | Address, flags, access flag, shareability and valid bits or-ed together are the descriptor with those fields |
| Descriptors.EncodeDecode | kern/arch/aarch64/mmu.c:347-348 | The hardware decodes a leaf written by mmu_map to the same physical page and attributes, inner shareable, and so does the mask of walk_pages |
| Descriptors.DescriptorBitByBit | kern/arch/aarch64/mmu.c:316-348 | Every bit of the word written for any flags: access, execute-never, memory type, shareability, access flag, address, and zeros elsewhere |
| Descriptors.WalkIsFourReads | kern/arch/aarch64/mmu.c:306-314 | An address translates to a page exactly when four reads at nine bits of it each, from bit 39 down, lead through three table descriptors to the page descriptor |
| Descriptors.KeysArePageNumbers | kern/arch/aarch64/mmu.c:283-288 | Two addresses have the same four 9-bit indices exactly when they are in the same page |
| Descriptors.EntryInjective | kern/arch/aarch64/mmu.c:283-288 | Different entries of page-aligned tables are different words |
| PageTables.FrameRepeatsIff | kern/arch/aarch64/mmu.c:46-70 | With several ascending regions, the next frame is the last one once more exactly when that one was not from the first region |
| PageTables.FrameRepeatsExample | kern/arch/aarch64/mmu.c:46-70 | Two regions in which a frame comes twice |
| PageTables.NextFrameIs | kern/arch/aarch64/mmu.c:46-70 | The next page of the first region while there is one, then the first page of the first later region that holds one, and none exactly if none does |
| PageTables.PageTable.AllocatePageTable | kern/arch/aarch64/mmu.c:46-70 | Hands out the first candidate that fits a region, or panics |
| PageTables.PageTable.WalkOrCreate | kern/arch/aarch64/mmu.c:290-304 | Returns the table below, creating it exactly when it is missing; the tree invariant holds after it, and no translation has changed |
| PageTables.LinkTable | kern/arch/aarch64/mmu.c:293-297 | Writing a pointer to a fresh zeroed frame keeps the tables a tree with every leaf as before |
| PageTables.WalkFindsLeaf | kern/arch/aarch64/mmu.c:306-314 | In every tree the hardware walk of a lower-half address ends at the leaf of its page, or faults where a table is missing |
| PageTables.LeavesAreTranslations | kern/arch/aarch64/mmu.c:306-348 | Changing one leaf, and adding tables, changes the translation of the addresses in that page only |
| DescriptorBits.PageDescriptor | kern/arch/aarch64/mmu.c:316-348 | The ors of mmu_map, in their order, build the descriptor with the address and the attributes of the flags |
| PageTables.PageTable.MmuMap | kern/arch/aarch64/mmu.c:306-349 | One update of the map from pages to translations: the page translates as asked, every other lower page as before, whichever levels were created, and the root's upper entries are untouched; panics exactly when the region cannot hold the missing tables |
| PageTables.PageTable.MapAll | kern/arch/aarch64/mmu.c:306-349 | After any run of maps the tables are a tree and each page translates as the last request for it asked; no map panics while there are frames for three tables each |
| PageTables.LastMappingStands | kern/arch/aarch64/mmu.c:306-349 | A request stands until a later one is for the same page |
| PageTables.PageTable.constructor | kern/arch/aarch64/mmu.c:243-251 | The root is the first frame behind the image, the tables are a tree, and nothing in the lower half is mapped |
| PageTables.PageTable.InitKMap | kern/arch/aarch64/mmu.c:102-115 | Each page of the range translates to its load address with the given rights, and no other translation changes |
| PageTables.ImageRights | kern/arch/aarch64/mmu.c:253-260 | No page of the image is both writable and executable, only text is executable, only data is writable, none is open to the user |
| PageTables.PagesCover | kern/arch/aarch64/mmu.c:108 | As many pages as it takes to cover the bytes, and no more |
| PageTables.ImageIs | kern/arch/aarch64/mmu.c:253-260 | Off the section bounds: pages with a byte of text are kernel read and execute, of rodata read, of data read and write, at their load addresses, and nothing else is mapped |
| PageTables.PageTable.MmuInit | kern/arch/aarch64/mmu.c:243-267 | Every page with a byte of text, rodata or data is mapped to its load address with the access of its section and no other kernel address is; entries 256 to 511 are filled, which changes no lower translation |
| PageTables.PageTable.FillUpperHalf | kern/arch/aarch64/mmu.c:262-267 | The upper entries point to the physical map, and every lower translation is unchanged |
| PageTables.PageTable.MapFrameArray | kern/arch/aarch64/mmu.c:185-189 | Each page gets a frame of its own; the frames differ from each other and from every table |
| PageWalk.WalkPages | kern/arch/aarch64/mmu.c:124-149 | Every mapped lower page is reported exactly once, in ascending order, with its physical address, and nothing else is: the report is what asking the hardware walk for one page after the other gives |
| PageWalk.ReportIsListing | kern/arch/aarch64/mmu.c:124-149 | Any report that is ascending, right and complete equals that listing |
| PageWalk.ReportCoversTranslations | kern/arch/aarch64/mmu.c:124-149 | An address translates exactly when its page is in the report, and to the address reported |
| LinkedList.LlInit | kern/lib/linked_list.h:6-9 | The list is empty |
| LinkedList.LlInsert | kern/lib/linked_list.h:11-18 | The node is put in front of the list; on a head that was never initialised it fails |
| LinkedList.LlUnlink | kern/lib/linked_list.h:20-29 | With `next` read before it is cleared, exactly the node is taken out of the list |
| LinkedList.LlUnlinkAsWritten | kern/lib/linked_list.h:20-29 | As written, the predecessor loses its `next`, and no list at all is left behind the head |
| FrameMap.PhysaddrToFrame | kern/arch/aarch64/mmu.c:151-160 | The index the search over the areas yields |
| FrameMap.FrameFoundIff | kern/arch/aarch64/mmu.c:151-160 | In any layout of areas, the frame found for a page is the one that describes it exactly when its area starts at address 0 |
| FrameMap.FrameFoundExample | kern/arch/aarch64/mmu.c:151-160 | In an area at 0x1000 the first page is taken for the second |
| FrameMap.ArraysFit | kern/arch/aarch64/mmu.c:179-183 | The two arrays do not overlap, are aligned, and end inside the pages mapped for them, less than 16 bytes and one page up |
| FrameMap.ArraysEnd | kern/arch/aarch64/mmu.c:179-183 | With one area the frames start 32 bytes behind _end, and the pages mapped are those with a byte up to 40 bytes for each frame |
| FrameMap.MapArrays | kern/arch/aarch64/mmu.c:185-189 | Those pages are mapped read-write, each in a frame of its own, and no other kernel address changes |
| FrameMap.FrameTable.InitOwnPage | kern/arch/aarch64/mmu.c:162-167 | The frame moves from whichever list it is on to page_table_frames, and every frame stays on exactly one list |
| FrameMap.FrameTable.constructor | kern/arch/aarch64/mmu.c:201-225 | All frames of memory are on free_frames, with their addresses, once each, the last one first |
| FrameMap.InitMemMap | kern/arch/aarch64/mmu.c:169-228 | The lists partition the frames: one is on page_table_frames exactly when a kernel page maps to it, which no page table is; the pages of the arrays are mapped read-write, no other kernel address changes, no two pages share a frame, and the upper half is untouched |
| FrameMap.MmuInitAll | kern/arch/aarch64/mmu.c:243-281 | All of mmu_init: each kernel address has the translation of its section or of the arrays, or faults; no two pages share a frame, the upper half is the physical map, and the frame lists are a partition by what is mapped; panics only for a misaligned section or want of frames |
| IrqTable.Irqs.constructor | kern/irq.c:29-37 | The table stands for the empty map, in 8 slots |
| IrqTable.Irqs.Rehash | kern/irq.c:39-80 | The map is kept, every tombstone dropped, the probe invariant holds under the new modulus, and the panic is not reached |
| IrqTable.InsertNew | kern/irq.c:56-68 | Moving an entry over adds exactly it to the map of the new table |
| IrqTable.Irqs.Register | kern/irq.c:82-111 | Adds exactly the new callback, in twice the slots exactly if half of them would be used; panics exactly when one of the three assertions fails, never for want of a slot; for an id that is registered already, which of the two callbacks answers |
| IrqTable.Irqs.Fire | kern/irq.c:113-143 | Calls what the search of any table answers: in a valid one exactly the registered function with its own data, and returns false exactly when the id is absent, also when no NULL slot is left |
| IrqTable.Irqs.Unregister | kern/irq.c:145-169 | Removes exactly the id, if it is there; for a reserved id the map is kept, and `used` goes wrong exactly when the search meets a slot marked with it |
| IrqTable.SecondEntry | kern/irq.c:98-104 | Of two entries for an id the new one answers exactly if a tombstone preceded the old one; no other id is answered differently |
| IrqTable.SecondEntryExample | kern/irq.c:98-104 | A table for each outcome |
| IrqTable.AnswerIsMap | kern/irq.c:121-142 | On a table of distinct ids the search answers what the map says |
| IrqTable.AnswerIff | kern/irq.c:121-142 | On any table the search answers with the first slot that holds the id, if no NULL slot comes before it |
| IrqTable.FreeSlotExists | kern/irq.c:98-110 | A table with fewer live entries than slots has a free slot within one round from anywhere |
| IrqTable.PutKeepsTable | kern/irq.c:98-104 | Filling the first free slot of a probe keeps every entry reachable from its home slot without a NULL between |
| IrqTable.DeleteKeepsTable | kern/irq.c:151-157 | So does a tombstone |
| IrqTable.SearchIsComplete | kern/irq.c:124-142 | An id not met before a NULL slot or a full round is not registered |
| IrqTable.Run | kern/irq.c:29-169 | After any allowed sequence of registrations and removals the table stands for their meaning |
| IrqTable.MeaningIsLastRegistration | kern/irq.c:82-169 | An id has a callback exactly when a registration of it was not followed by its removal, and then that one |
| IrqDrift.Written.Register | kern/irq.c:82-111 | As written, the loop and the assignments have exactly this effect on block and `allocated`, or leave the block |
| IrqDrift.Written.Search | kern/irq.c:121-142 | As written, where the search ends: at an entry, at none, or past the block |
| IrqDrift.Written.Unregister | kern/irq.c:145-169 | As written, the effect on block and `allocated` |
| IrqDrift.RunWritten | kern/irq.c:82-169 | As written, what a whole run reaches, or the first call that fails |
| IrqDrift.NeverRehashes | kern/irq.c:88-91 | As written, in every run `allocated` is 8 plus the number of entries, and the load test never asks for a rehash |
| IrqDrift.LookIff | kern/irq.c:121-142 | On any table with an entry, exactly when the search for an id finds it, ends at a NULL, or leaves the block, and at which slot |
| IrqDrift.RegisterIff | kern/irq.c:93-110 | A registration succeeds exactly if its home slot is in the block with a free slot at or above it, fills the first such and steps `allocated`, and else leaves the block |
| IrqDrift.UnregisterIff | kern/irq.c:145-169 | A removal puts a tombstone over the first entry in reach and steps `allocated` back, and else changes nothing or leaves the block |
| IrqDrift.StandsIff | kern/irq.c:82-169 | Through a run over any real ids the live entries are what has been registered exactly if every removal of a registered id finds it |
| IrqDrift.MissesIff | kern/irq.c:147-151 | A removal misses a registered id exactly if no entry of it is in reach of its home slot |
| IrqDrift.RegistrationsOnly | kern/irq.c:145-169 | A run without removals misses none |
| IrqDrift.AgreesIff | kern/irq.c:121-142 | After any run whose removals found their entries, a search for any real id agrees with what has been registered exactly if nothing is, or the home slot is in the block and a registered id is in reach, or an absent one has a NULL above |
| IrqDrift.TenIsMissed | kern/irq.c:145-169 | An id whose removal does not remove it |
| IrqDrift.SmallRuns | kern/irq.c:82-169 | Runs over the ids 2 to 7 leave every registered id in its own slot, and fail exactly where the removal of an absent id leaves the block |
| IrqDrift.TidyRuns | kern/irq.c:82-169 | If only registered ids are removed, no call of such a run fails |
| IrqDrift.SearchAgreesIff | kern/irq.c:121-142 | After a run over the ids 2 to 7 a search agrees with what has been registered exactly unless it leaves the block, as it never does for a registered id |
| IrqDrift.LeavesBlockIff | kern/irq.c:121-142 | In such a run a search leaves the block exactly if the id is not registered, another is, and every id from this one to 7 was registered at some time |
| IrqDrift.FirstRegistrationFoundIff | kern/irq.c:93-108 | The first id registered is found directly afterwards exactly if it is below 8 modulo 72, and that search leaves the block exactly if it is 8 modulo 9 |
| IrqDrift.TenIsLost | kern/irq.c:93-108 | An id that is registered and not found |
| IrqDrift.SeventyTwoIsLost | kern/irq.c:93-108 | An id that is found until another is registered |
| IrqDrift.EightLeavesBlock | kern/irq.c:93-108 | An id whose registration is written past the block |
| IrqDrift.SevenLeavesBlock | kern/irq.c:121-142 | A removed id whose search reads past the block |
| Scheduler.StepKeepsInv | kern/task/task.c:144-210 | Every step keeps each started task in exactly one place, task level, curspl and mask in agreement, waiting tasks new or at level 1, and at most one trap on a stack |
| Scheduler.EnabledIff | kern/task/task.c:144-210 | What can happen next in any state that keeps the invariant: something always can; interrupts exactly at level 0 |
| Scheduler.LevelAfter | kern/arch/aarch64/spl.c:8-60 | Level and mask after each step: a new task starts unmasked, a trap returns to level 0 |
| Scheduler.MiSwitchQueues | kern/task/task.c:144-192 | The head of the queue is next; a yield puts the current task at the end, an exit among the zombies |
| Scheduler.MiSwitchConserves | kern/task/task.c:144-192 | No task is lost or doubled by a switch |
| SchedulerRuns.ExitKeepsQueuesIff | kern/task/task.c:157-170 | An exit leaves its task in one place exactly when another task is ready |
| SchedulerRuns.ExitAlone | kern/task/task.c:157-170 | An exit of the bootstrap task alone: it goes on as a zombie |
| SchedulerRuns.RunKeepsInv | kern/arch/aarch64/spl.c:8-60 | The agreement of levels and mask, and the queues, hold at every point of every run |
| SchedulerRuns.InitialInv | kern/task/task.c:106-116 | They hold after task_bootstrap |
| SchedulerRuns.BootstrapStays | kern/task/task.c:106-192 | In every run in which the bootstrap task does not exit it is current or ready, and no exit finds the queue empty |
| SchedulerRuns.ZombiesStayDead | kern/task/task.c:188-192 | Then no zombie becomes current or ready again |
| SchedulerRuns.SwitchRestoresLevel | kern/task/task.c:165-179 | When mi_switch returns, mask, curspl, and the task's level and frames are as at the call, whatever other tasks did |
| SchedulerRuns.StaysTrapped | kern/arch/aarch64/trap.c:19-25 | Until its trap returns a task takes no second one, wherever it is switched to in between |
| SchedulerRuns.TrapRestoresLevel | kern/arch/aarch64/trap.c:92-99 | When a trap returns, mask, curspl, and the task's level and frames are as when it was taken |
| SchedulerRuns.BoundedWaiting | kern/task/task.c:118-130 | A ready task at position k becomes current at switch k+1 plus one for every task started before then, with yields and exits mixed |
| SchedulerRuns.RoundRobin | kern/task/task.c:124-192 | With yields only, each switch turns the current task and the queue by one place |
| SchedulerRuns.EachOnce | kern/task/task.c:124-192 | So the tasks become current in queue order, and all differ: each once in as many switches as there are tasks |
| Kernel.TaskUnlinkFrom | kern/task/task.c:16-39 | Exactly this task leaves the doubly linked list |
| Kernel.TaskListMoveHead | kern/task/task.c:46-63 | The list gets the task in front |
| Kernel.TaskListMoveTail | kern/task/task.c:65-81 | The list gets the task at its end |
| Kernel.Scheduling.constructor | kern/task/task.c:106-116 | The initial state of the task machine: interrupts on, nobody queued |
| Kernel.Scheduling.SplHigh | kern/arch/aarch64/spl.c:8-29 | The step of the task machine; returns the level before |
| Kernel.Scheduling.SplZero | kern/arch/aarch64/spl.c:31-52 | The same for level 0 |
| Kernel.Scheduling.Splx | kern/arch/aarch64/spl.c:54-60 | The same for a saved level |
| Kernel.Scheduling.TrapEntered | kern/arch/aarch64/trap.c:19-25 | The trap entry step; the local keeps the task's own level |
| Kernel.Scheduling.TrapLeft | kern/arch/aarch64/trap.c:92-99 | The trap exit step |
| Kernel.Scheduling.TaskStart | kern/task/task.c:118-122 | The start step: lists well formed, disjoint and without the current task |
| Kernel.Scheduling.QueueCurrent | kern/task/task.c:150-155 | The current task is at the end of the list for its state, and the lists stay well formed and disjoint |
| Kernel.Scheduling.MiSwitchAway | kern/task/task.c:144-173 | The switch step of the machine, on the pointers; the lists stay valid exactly unless an exit finds nobody ready |
| Kernel.Scheduling.StrandedIsNoList | kern/task/task.c:155-170 | After an exit that found nobody ready, no sequence of tasks is the zombie list, if there were zombies before |
| Kernel.Scheduling.MiSwitchBack | kern/task/task.c:175-180 | The resume step |
| Kernel.Scheduling.TaskStartup | kern/task/task.c:199-205 | The first step of a new task |
| KernelRuns.Drive | kern/task/task.c:106-210 | From task_bootstrap on, the code on pointers follows the machine through every run, with the locals that suspended calls kept |
| Assembly.Core.AarchSwitch | kern/arch/aarch64/switch.S:26-106 | The 31 str and 31 ldr at their offsets are one block stored below sp and one loaded above the new sp, word for word |
| Assembly.Core.FinishTrap | kern/arch/aarch64/interrupt.S:10-75 | The stores of the trap entry at their offsets are the block of 36 words of the trap frame; x0 is its address, and through it the handler reads vector, registers, esr, elr, spsr and far |
| Assembly.Core.ReturnFromTrap | kern/arch/aarch64/interrupt.S:77-112 | The loads of the trap exit bring back x0 to x30, sp and the return state from that frame |
| Assembly.Core.MdInitNewTaskPcb | kern/arch/aarch64/pcb.c:6-39 | The forged frame in memory, word for word |
| Assembly.Execute | kern/arch/aarch64/switch.S:26-106 | The instructions follow the run machine through every run, in registers and memory |
| ContextSwitch.StepKeepsInv | kern/arch/aarch64/switch.S:26-106 | Every step keeps each suspended frame of each task intact in memory, and stacks and pcbs apart |
| ContextSwitch.TrapFrameIs | kern/arch/aarch64/interrupt.S:10-75 | x0 is the address of the trap frame, whose words are where struct trapframe has them, and nothing else is written |
| ContextSwitch.HandlerSees | kern/arch/aarch64/trap.c:19-30 | So at every trap of a run: the handler is given the frame of the task that was interrupted |
| ContextSwitch.SwitchIs | kern/arch/aarch64/switch.S:26-106 | The words a switch writes, all of them, and the registers it reads |
| ContextSwitch.NewPcbIs | kern/arch/aarch64/pcb.c:6-39 | The words of the forged frame, and nothing else is written |
| ContextSwitch.EnabledIff | kern/arch/aarch64/switch.S:26-106 | In any state that keeps the invariant every task can be switched to, and a trap be taken wherever there is room for its frame |
| ContextSwitch.SwitchRestoresRegisters | kern/arch/aarch64/switch.S:26-106 | A resumed task has the x0 to x30 and sp it was suspended with, whatever ran in between; also when it switches to itself |
| ContextSwitch.SwitchRestoresStack | kern/arch/aarch64/switch.S:26-106 | Every word on its stack from sp up reads as it did when the task was suspended: the locals of all its suspended calls |
| ContextSwitch.FirstSwitchEntersStartup | kern/arch/aarch64/pcb.c:6-39 | The first switch to a task enters mi_task_startup with fn in x0, userdata in x1 and sp at the top of its stack |
| ContextSwitch.TrapRestoresEverything | kern/arch/aarch64/interrupt.S:10-112 | After a trap the interrupted code has its registers, sp, program counter and processor state back, switches and nested traps included |
| ContextSwitch.TrapRestoresStack | kern/arch/aarch64/interrupt.S:10-112 | And every word of its stack from sp up |
| KernelHeap.PaddingRounds | kern/mem/mem.c:97-104 | The wrapping difference completes any 64-bit size to the next multiple of 16 |
| KernelHeap.Heap.Kzalloc | kern/mem/mem.c:97-104 | A zeroed, aligned block that overlaps no other, exactly when it fits |
| KernelHeap.FitsIff | kern/mem/mem.c:92-104 | A block fits exactly when the total of the padded sizes stays within the heap |
| KernelHeap.Heap.TaskNew | kern/task/task.c:83-104 | A task structure and behind it a stack of its own, zeroed, exactly when both fit |
| KernelHeap.TasksApart | kern/task/task.c:83-104 | Tasks from one heap share neither stack nor pcb: the premise of the context switch |
| KernelHeap.BootTasks | kern/task/task.c:83-116 | On an empty heap task_bootstrap and n calls of task_new all succeed exactly when n is at most 3 |
| KernelHeap.TasksFitIff | kern/mem/mem.c:92-104 | The sizes they ask for fit the heap exactly when n is at most 3 |
| Printf.ParseDigits | lib/libc/printf.c:120-145 | The digits printed read back as the value |
| Printf.DigitAt | lib/libc/printf.c:120-145 | Each digit is the numeral, 0 to 9 and a to f, of the remainder at its place |
| Printf.DigitsAreNumerals | lib/libc/printf.c:120-145 | Only numerals, and no leading zero |
| Printf.DigitsInjective | lib/libc/printf.c:120-145 | Different values have different digits |
| Printf.DigitsFit | lib/libc/printf.c:120-131 | 20 digits at most, which the largest value has: with the terminator they fill the buffer exactly |
| Printf.SignedReadsBack | lib/libc/printf.c:157-169 | Under every format the printed integer tells its sign and its magnitude, also the least one |
| Printf.SignedInjective | lib/libc/printf.c:157-169 | Different integers print differently |
| Printf.FieldShape | lib/libc/printf.c:66-116 | Any field: padded on one side only, on the left up to its width, on the right until the length is the width modulo 2 to the 64 |
| Printf.RunConcat | lib/libc/printf.c:304-310 | Running over a concatenation is running over the parts |
| Printf.RunHasNoNul | lib/libc/printf.c:304-310 | From arguments without NUL nothing with NUL is printed |
| PrintfDirectives.RunWidth | lib/libc/printf.c:238-244 | Width digits read as the number they write |
| PrintfDirectives.RunPrecisionDigits | lib/libc/printf.c:225-230 | So do precision digits, modulo 2 to the 64 |
| PrintfDirectives.RunFlags | lib/libc/printf.c:205-240 | Before the width, 0 is a flag; flags come in any order |
| PrintfDirectives.RunDirective | lib/libc/printf.c:187-287 | A directive prints its rendering, takes one argument, and leaves format mode |
| PrintfDirectives.RunAnyOptions | lib/libc/printf.c:187-257 | Options in any order: # and - count anywhere, digits before the first point are the width, those after the last the precision, both modulo 2 to the 64, a zero while the width is 0 is a flag, and other characters print themselves |
| PrintfDirectives.RunAnyDirective | lib/libc/printf.c:187-287 | And then the conversion prints what it makes of them and of one argument |
| PrintfDirectives.RunSegments | lib/libc/printf.c:289-317 | Any list of literals and directives prints the concatenation of the renderings and takes exactly the matching arguments, in order |
| PrintfStandard.FieldConformsIff | lib/libc/printf.c:66-116 | A field is the standard's exactly when left-justified output fits its width, and zero padding meets no prefix and no precision |
| PrintfStandard.SignedConformsIff | lib/libc/printf.c:259 | %d agrees with the standard exactly under that condition |
| PrintfStandard.HexConformsIff | lib/libc/printf.c:272-275 | %x agrees exactly when besides the argument is not negative, and not a prefixed zero |
| PrintfStandard.SignedHexConformsIff | lib/libc/printf.c:272-275 | %x of any argument is a signed magnitude, 0x between sign and digits with #, in the field the standard would give that, exactly when the padding is right |
| PrintfStandard.PointerConformsIff | lib/libc/printf.c:260-271 | %p of any address but null has 0x and all its digits, in the field of the standard exactly when the padding is right |
| PrintfStandard.NullConformsIff | lib/libc/printf.c:260-264 | %p of the null pointer is (null), likewise |
| PrintfStandard.RenderShape | lib/libc/printf.c:66-116 | Whatever the padding: what every directive prints of every argument |
| PrintfStandard.StringConformsIff | lib/libc/printf.c:276-278 | %s agrees exactly when the precision neither lengthens nor should have cut the string, and left-justified output fits |
| PrintfStandard.LeftExample | lib/libc/printf.c:107-111 | %-1d of 10 prints 2 to the 64 less 1 spaces too many |
| PrintfStandard.ZeroPadExample | lib/libc/printf.c:79-86 | %03d of -5 prints 0-5 |
| PrintfStandard.HexExample | lib/libc/printf.c:272-275 | %x of -1 prints -1 |
| PrintfStandard.EmptyStringExample | lib/libc/printf.c:96-101 | %s of the empty string prints 0 |
| PrintfStandard.PercentStaysInFormat | lib/libc/printf.c:279-285 | %%d prints a percent sign and then a number |
| PrintfStandard.PercentConformsIff | lib/libc/printf.c:279-285 | %% and a literal print as they should exactly when the literal has no character that means something in a directive |
| PrintfRunner.PrintkWritefn | kern/lib/printk.c:6-15 | Shows the chunk up to its first NUL, whatever the length says |
| PrintfRunner.ShownIsConcat | kern/lib/printk.c:6-15 | Text without NUL is shown whole |
| PrintfRunner.Runner.Flush | lib/libc/printf.c:43-49 | The buffer goes to the writer and into the count, and what was pushed stays the same |
| PrintfRunner.Runner.PushChar | lib/libc/printf.c:55-64 | One more character is pushed, and there is room for the next and a terminator |
| PrintfRunner.Runner.DoPrint | lib/libc/printf.c:66-116 | Pushes the field: padding, prefixes, precision zeros, text, right padding |
| PrintfRunner.GenerateDigits | lib/libc/printf.c:120-145 | The backward digit loop produces the digits and never leaves its 21 bytes |
| PrintfRunner.Runner.DoInt | lib/libc/printf.c:157-169 | Pushes the signed field, with the wrapping negation of the least value |
| PrintfRunner.Runner.StepChar | lib/libc/printf.c:187-287 | The runner's fields, output and arguments after a character are those of the format machine |
| PrintfRunner.GenericPrintf | lib/libc/printf.c:289-317 | The console shows exactly what the format machine prints, chunked or not, and the result is its length |
| Gic.Handle | drivers/aarch64/gic_400.c:49-78 | The actions taken: the first pending id without its bit 8 and then the others are ended in order, each directly after its callback if it has one, and preempt_fire runs exactly if one of these returned 1; with none pending id 767 is ended |
| Gic.TakenIs | drivers/aarch64/gic_400.c:50-74 | The ids taken: the mask clears bit 8 of the first, and of the spurious id if none is pending |
| Gic.FiresBeforeItsEnd | drivers/aarch64/gic_400.c:58-70 | Every callback runs directly before the end of the id it is registered for, and no id with a callback is ended without |
| Gic.ServedEndsAndFires | drivers/aarch64/gic_400.c:58-73 | Each id is ended exactly once and in order, and exactly the registered callbacks of the ids run, in order |
| Gic.PreemptIsLast | drivers/aarch64/gic_400.c:75-77 | preempt_fire runs exactly when the callback registered for one of the ids returned IACT_PREEMPT, once, after everything else |
| Gic.MaskExample | drivers/aarch64/gic_400.c:50-58 | Id 256 pending first is taken for, and ended as, id 0 |
| Gic.HandlesAsIntendedIff | drivers/aarch64/gic_400.c:50-58 | The ids taken are the pending ones exactly when there is one, and bit 8 of the first is clear |

## Left out

- PrintfStandard.SignedConformsIff: for precisions below 2 to the 64 less 3; larger ones overflow the length computed in a size_t.  With the flag #, which the standard leaves undefined for %d, the comparison is with the field without it.
- PrintfStandard.HexConformsIff: the same bound on the precision.
- PrintfStandard.SignedHexConformsIff: the same bound; RenderShape has none.
- PrintfStandard.PointerConformsIff: the same bound.  The standard leaves the text of %p to the implementation, and flags and precision with it undefined; the field is the one it has for a prefixed number.
- PrintfStandard.NullConformsIff: the same bound.
- PrintfStandard.StringConformsIff: for directives without the flag 0.  The standard leaves %s undefined with 0 or #; with # the comparison is with the field without it.
- PrintfStandard.PercentConformsIff: for a literal printed without arguments; with arguments a special character could print itself by chance.
- Assembly.Core.AarchSwitch: memory is 8-byte words at the addresses used; partial and overlapping words do not occur, as the stack pointer is aligned.
- Assembly.Core.FinishTrap: floating-point registers, which the source does not save either.
- KernelHeap.Heap.Kzalloc: where the block does not fit, the source writes past the heap; here the call has no effect.
- IrqTable.Run: sequences that register an id twice at a time, or remove a reserved id; after one such call the table is no map any more.
- IrqDrift.AgreesIff: runs in which a removal missed a registered id; from then on the table holds an entry that is not registered (StandsIff), and a search ends as LookIff says.
- FrameMap.InitMemMap: the callback is given the addresses after the walk instead of during it; it writes frame structures only, which are not page tables.
- Kernel.Scheduling.MiSwitchAway: not preempted between the list edits and splhigh.
- KernelRuns.Drive: runs in which no exit finds the ready list empty; after such an exit the lists are no lists.
- Gic.Handle: interrupts mapped to the tombstone id, at which irq_fire panics.
- Preemption inside the unmasked stretch of mi_switch, several cores, weak memory, TLB maintenance and barriers.
- The cache path of allocate_page_table, which is never reached because the early source is never cleared.
- kmmap, allocate_frame, new_range, kzrealloc, kfree, task_sleep and task_wakeall: stubs or unfinished.
- The sleeping state, for which task_state_to_list panics, and the state field, which nothing reads.
- PrintfDirectives.RunSegments: options in the order of the standard; RunAnyDirective has them in any, for one directive at a time.  Other conversion characters print themselves and stay in format mode.
- Synchronous traps, which print and hang; of aarch64_trapentry only the interrupt path is modelled.
- boot.S and the linker script beyond the initial state and the section layout; memory-mapped devices; menus, panics and device registration.
- string.c: strlen, memset and memcpy are lengths, updates and copies here.
