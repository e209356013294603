# Litchi: memory management and tasks, verified

This project models the memory manager of the Litchi kernel and the task lifecycle built on it, and
proves properties of the model with Dafny. `dafny verify dfyconfig.toml` checks all of it.

## What is modelled

- **Frames.** `FreeList` is the intrusive free list of `PageInfo` (and of task slots). `PageTables` gives
  the frame allocator and the page-table editor as functions on a `Vm` value: the free list as a sequence,
  the 16-bit reference counts, and the 1024 words of every physical frame. Directories and page tables are
  frames of that memory, so aliasing between them is part of the model.
- **Ownership.** `Ownership` records a role for every frame (kernel, free, in flight, directory of a task,
  page table, data, lost) and states the invariant `Inv`: tables, free list and counts agree with the
  roles. `OwnershipSteps`, `RadixTree`, `Isolation`, `Exactness` prove what the editor keeps, what it does
  to every translation of every live directory, and that counts are exactly the live references.
- **Address spaces.** `AddressSpaces`, `AddressSpaceSteps`, `RegionSteps`, `Regions`, `UserMemory`,
  `ElfLoader`, `TaskTeardown` and `TaskLife` cover `setupMemory`, `regionAlloc`, `loadElf`, `free` and what
  is conserved over a task's life; `FrameNeeds` is how many frames a program needs.
- **Tasks and runs.** `Tasks` has the kernel state and its events: the monitor's `runtask`, `cont` and `si`,
  every trap from user mode, and every byte that a program stores between two traps. `TaskSteps` says field by
  field what these do to the table of tasks; `TaskInvariant`, `UserStores` and `RunSafety` prove run safety over
  every sequence of events. `UserCheck` is the check of user pointers.
- **Boot.** `StaticMaps`, `BootMaps`, `EarlyMaps`, `KernelEdits`, `MmioWindows`, `SelfTest` and `BootStates` cover
  `page::init`, the static maps before and after the kernel's directory is loaded, device windows, and the
  self-test of `pgdir::init`. `StaleEntries`, `StaleMemory`, `StaleRuns`, `StaleTeardown` and `StaleFree` follow the
  page-directory entry that the self-test leaves behind, and `ArrayRuns` the frames of the Task array.
- **Translation cache.** `TranslationCache`, `CacheSafety`, `MmioSafety` and `MmioRuns` state when a store to a
  table can leave a stale translation (section 5.2.5 of the Intel 80386 Programmer's Reference Manual).
- **In place.** `KernelMemory`, `KernelSpaces`, `KernelTasks`, `KernelBoot` and `KernelRuns` are the same
  operations as classes with arrays and loops, each proved against the function of the same name.
- **Library.** `Conversions` (address conversions), `MemMove` (`mem::copy`, `mem::move`), `Numbers`
  (`printNumber`, `%d`, `toLong`), `Tokenizer` (`str::split`).

`Res` in `Wrappers` is how an operation ends: `Ok`, `Panic` (a panic, a failed assertion, or a fault in the
kernel), or `Cyclic` (it returned, but a second release of the free list's last element closed a ring).

## Findings

Where the code departs from its intent, the model follows the code, and the project proves the departure
with a concrete input and, where there is one, its exact condition.

- **The self-test leaves a page table behind.** `remove` clears only the page-table entry
  (kernel/vmem.cc:243), so after `pgdir::init` the kernel's directory has a present entry for 0x80000000
  (`SelfTest.CheckLeavesEntry`). Boot therefore does not reach a safe state (`BootStates.BootIsWeak`,
  `KernelBoot.Boot`), only one that would be safe without that entry. Runs keep this weaker state exactly
  until a task is freed (`ArrayRuns.StepIff`); that step puts the page table on the free list while the
  kernel's directory goes on naming it (`StaleFree.FreeDangles`). In general, an entry dangles after a task
  was set up and freed if and only if the kernel's directory had one below UTOP (`KernelEntryDanglesIff`).
- **The Task array is on the free list.** It is boot-allocated after `page::init` has fixed the free range
  (`TaskArrayIsFree`), so its frames are not reserved for the kernel (`TaskArrayNotReserved`), and create clears them
  when they come up. With n frames of tasks behind frame nextFree - 1, a run in which no task is freed is spared
  that if and only if it takes at most 892 - (nextFree + n) frames, less one for the page table of a device
  (`ArrayRuns.BootRunsIff`); a program takes exactly `CreateFrames` (`FrameNeeds.BuildNeed`). If the array ends
  at frame 888 or 889, the first task already takes one of its frames (`FirstTaskCrosses`); with frames
  400 to 407 and six frames a task, the 81st does (`RoundsTake`). A frame that is first on the list becomes a
  directory (`FirstIsOverwritten`).
- **Boot needs room below 4 MiB.** Until CR3 is loaded, the Task array and all 131 page tables must lie there
  (`EarlyMaps.EarlyBootReaches`, `KernelBoot.Boot`). Boot also works out if the array reaches frame 890, but then
  the array shares frames with page tables or with the self-test (`BootStates.BootOverlapsIff`).
- **create loses a frame.** It calls `setupMemory` after `alloc` already did: exactly one frame is lost per
  created task (`TaskLife.CreateLosesOneFrame`), and none without create (`TaskLife.LifeConserves`).
- **A failing alloc loses its slot**, exactly when there is a slot and no frame (`AllocPartitionIff`).
- **putString reads twice as far as it checks.** It checks `count` bytes and reads `count` 16-bit
  characters: an accepted string stops the kernel if and only if one of the 2 * count bytes from its address on is
  not mapped (`TrapKeeps`). Every string on the stack's page that ends by USTACKTOP, but not if it were twice as
  long, does it while the page above is not mapped (`TwiceAsFarStops`), as it is not right after `runtask` if no
  segment uses it (`RunTaskThenStops`); so does a length that wraps around (`WrappedLengthStops`). Besides a
  `runtask` without room, this is the only way (`StepKeeps`).
- **userCheck asks for one bit.** It is meant to check that all pages satisfy perm | PTE_P, but tests for a
  common bit (kernel/vmem.cc:362), so a page that is present for the kernel only passes a check for user access,
  and no range below ULIM but the empty one can be trusted with the check alone (`NothingTrusted`). A range that
  is accepted satisfies perm if and only if no visited entry has only some of the bits (`CheckGrantsIff`).
- **userCheck misses pages.** Acceptance means that every page passes this test exactly when the range does not
  wrap around and the loop reaches every page of it (`CheckSoundIff`); 0x1FFE with 4 bytes is a range whose second
  page is skipped, and 0x1000 with 0xFFFFFFFF bytes one of which no page is looked at (`UnsoundExamples`).
- **The mmioMap guard wraps.** Sizes close to 2^32 pass it: 0xFFFFF000 because the sum wraps, 0xFFFFF001
  because it rounds up to zero (`GuardWraps`). Of the requests that pass, exactly those no larger than the
  device region fit (`GuardIff`).
- **mmioMap after tasks exist** is seen by no live task unless its page table was there before
  (`MmioKeepsInvIff`, and `MmioKeepsWeakIff` in the states that a real boot reaches).
- **Counts are 16 bits wide**: the 65536th mapping of a frame makes its count wrong, and nothing else does
  (`InsertExactIff`). The kernel's own runs never come near it (`CountsStaySmall`).
- **regionAlloc rounds in 32 bits.** A region that ends above the last page boundary panics, and so does an empty one
  at a page boundary; one that is longer than the rest of the address space is allocated as a single page if its end
  wraps around to inside the page that it starts on, which takes 4 GiB less a page (`RegionRange`).
- **The double-free check misses the tail** of the free list, and only that (`ReleaseIff`).
- **A later segment discards an earlier one on the same page** (`SegmentByteSurvivesIff`).
- **staticMap stores through null** when no frame is left for a page table: it succeeds exactly if there is
  one for every absent directory entry that it touches (`StaticMapSteps`).
- **%d of a negative number padded with spaces** puts the spaces behind the sign and reads back as zero;
  every other combination reads back as the number (`PrintIntThenParse`).
- The address diagram in include/memlayout.h:28-85 places KERNBASE at 0xf0000000; the code says 0xE0000000
  (include/memlayout.h:89), which is what the model uses.

## Assumptions

- The machine has at most 2^17 frames, as many as the window [KERNBASE, 2^32) can hold; `FramesAreReachable`
  shows that then every access to a frame is to that frame.
- `RunsAreSafe` starts from `Safe` states, and takes the frames of the Task array as reserved for the kernel,
  which the real boot does not do. The theorems of `ArrayRuns` start from the states that it does reach, and
  say exactly how long the array is left alone.
- Programs given to `runtask` have segments below UTOP with no more bytes in the file than in memory
  (`WellFormed`); after the real boot, also none in [0x80000000, 0x80400000) (`StaysClear`).
- Random numbers, the number of frames, device addresses and trap frames are arbitrary inputs.

## Model

| member | source | states |
|---|---|---|
| FreeList.ReleaseIff | kernel/vmem.cc:35-41 | The check of `free` passes exactly for an uncounted slot that is not on the list or is its last element; a slot that passes is put in front of the list if it was not on it, and otherwise the links never end. |
| FreeList.PopList | kernel/vmem.cc:43-50 | `alloc` takes the head; the rest is still a list, and the taken slot carries a null link. |
| KernelMemory.FreeIsRelease | kernel/vmem.cc:35-41 | FreeFrame is exactly this on the links: it panics on a counted or linked frame, gives a ring when the links would not end, and otherwise puts the frame in front. |
| FreeList.Count | kernel/vmem.cc:58-66 | `freeCount` returns the length of the list. |
| Exactness.CountsAreExact | kernel/vmem.cc:31-56 | Outside of kernel and lost frames, the count of every frame is the number of live references to it (directory pointers, directory entries and page-table entries below UTOP); a free frame has none, and a referenced one has a positive count. |
| Exactness.UnreferencedIff | kernel/vmem.cc:31-56 | A frame is free or in flight exactly when nothing refers to it. |
| Exactness.InsertReleases | kernel/vmem.cc:250-266 | Re-inserting the frame mapped at va keeps its count and never frees it; a different frame releases the old one exactly on its last reference; no other count changes. |
| Exactness.InsertExactIff | kernel/vmem.cc:255-262 | The inserted frame's count is exact afterwards if and only if it was below 65535, the frame was mapped there already, or the insertion failed. |
| OwnershipSteps.FindPteLooksUp | kernel/vmem.cc:196-208 | Without create: nothing changes, and the place of the entry is returned exactly if its page table is present, for every directory and address. |
| PageTables.FindPtePanics | kernel/vmem.cc:196-208 | In any memory at all, findPte stops the kernel exactly on a present directory entry for memory that does not exist. |
| OwnershipSteps.FindPteKeepsInv | kernel/vmem.cc:196-225 | With create, in a task's directory below UTOP: ownership is kept, and it fails exactly when a table is needed and no frame is left, changing nothing. |
| KernelEdits.KernelFindPteIff | kernel/vmem.cc:196-225 | With create, in the kernel's directory: memory is still owned as before if and only if no table is made, or one above UTOP while no task is alive to miss it. |
| OwnershipSteps.RemoveBelowUtop | kernel/vmem.cc:237-247 | Below UTOP, from any directory, remove returns and keeps ownership; the frame is free afterwards exactly if this was its last mapping. |
| OwnershipSteps.InsertKeepsInv | kernel/vmem.cc:250-266 | insert, in all its branches, returns and keeps ownership as long as the count fits 16 bits; only frames that are free, data or tables of this directory change hands. |
| RadixTree.FindPteKeepsTranslations | kernel/vmem.cc:196-225 | For every live directory, the kernel's included, and every address: no translation of any directory changes, except that a new directory entry shows in the UVPT window of its own directory. |
| RadixTree.FindInfoIsLookup | kernel/vmem.cc:228-234 | findInfo is the lookup of va in the map that the processor walks. |
| RadixTree.RemoveIsDelete | kernel/vmem.cc:237-247 | remove deletes exactly one page: below UTOP from its directory, above UTOP, where page tables are shared, from every directory. |
| RadixTree.InsertIsUpdate | kernel/vmem.cc:250-266 | insert into a task's directory fails exactly when a table is needed and no frame is left, and then changes nothing; otherwise it updates exactly the page of va (and shows a new table in the UVPT window). |
| KernelEdits.KernelInsertIsUpdate | kernel/vmem.cc:322-330 | insert into the kernel's directory below UTOP, as the self-test does: it fails exactly without a frame for the table; otherwise it maps exactly that page, for the kernel's directory only, and memory is not owned as before. |
| Isolation.InsertIsolated | kernel/vmem.cc:250-266 | Every other live directory translates every address as before, and data, kernel and lost frames keep their contents. |
| Isolation.RemoveIsolated | kernel/vmem.cc:237-247 | The same for remove, with the pages mapped by other tasks unchanged. |
| AddressSpaceSteps.SetupKeepsInv | kernel/task.cc:109-123 | A new directory maps nothing below UTOP, repeats the kernel's upper half, and changes no translation. |
| Translation.OwnDirectoryIsReadable | kernel/task.cc:119-121 | In every live directory entry 893 is the directory itself, readable for the user and not writable, so that the window at UVPT + 893 * 4 KiB shows its own entries. |
| RegionSteps.AllocPageOkIff | kernel/task.cc:196-202 | One round of regionAlloc succeeds exactly if one frame is free, or two when the page table is missing. |
| RegionSteps.AllocPageSteps | kernel/task.cc:196-202 | It maps a zeroed frame of its own at the page, writable for the user, and changes nothing else in this or any other space. |
| Regions.RegionAllocSteps | kernel/task.cc:189-203 | Below UTOP: memory runs out, or exactly the pages of the region read as zero afterwards; other tasks see no change. |
| Regions.RegionRange | kernel/task.cc:189-203 | For every 32-bit address and length: which pages regionAlloc allocates, and exactly when its check of the rounded ends panics. |
| Regions.CopyOutSteps | kernel/task.cc:175 | Copying to mapped pages of the task writes exactly these bytes. |
| ElfLoader.LoadElfImage | kernel/task.cc:157-186 | Into an empty space: a panic for a bad magic number or lack of frames, or else every address below UTOP reads as the image that the headers describe, with a zeroed stack page, and nothing else mapped; other tasks see no change. |
| ElfLoader.SegmentsIntact | kernel/task.cc:167-176 | With page-disjoint segments the task reads each segment of type 1 (PT_LOAD) as the file's bytes followed by zeros. |
| ElfLoader.LoadedSegment | kernel/task.cc:157-186 | What loadElf leaves in memory: off the stack's page, every address on a page of a segment of type 1 (PT_LOAD) reads as the last such segment says, the file's bytes in their places and zeros around them. |
| ElfLoader.LoadedElsewhere | kernel/task.cc:157-186 | The stack's page [0xDEBFD000, 0xDEBFE000) reads as zero in any case; outside of it, a page that no segment of type 1 touches is not mapped. |
| ElfLoader.SegmentByteSurvivesIff | kernel/task.cc:196-200 | Without that, a segment's byte survives exactly if the last segment (or the stack) on its page puts the same byte there. |
| TaskTeardown.FreeSpaceSteps | kernel/task.cc:128-147 | Task::free never panics and never links a ring; it keeps ownership, frees the directory, and changes no other address space. |
| TaskLife.LifeConserves | kernel/task.cc:73-155 | alloc, any regions below UTOP, and free give back exactly the frames, counts and slots there were. |
| TaskLife.CreateLosesOneFrame | kernel/task.cc:205-218 | create and free lose exactly one frame, which stays counted once; all other frames and counts are as before. |
| TaskInvariant.AllocPartitionIff | kernel/task.cc:73-82 | The slots stay partitioned into free and live ones if and only if there was no slot, or a frame for the directory. |
| TaskInvariant.LiveIdsDistinct | kernel/task.cc:84-86 | Live ids are pairwise different whatever the random generator returns. |
| TaskInvariant.CreateKeeps | kernel/task.cc:205-218 | create returns a ready task in the first free slot, with its image in a space of its own; memory ownership, slots and the running task are kept. |
| TaskInvariant.UserModeIsSafe | kernel/task.cc:220-233 | Whenever a user frame is popped, that task is the only running one, it is current, and CR3 is its directory, which is not a free frame. |
| TaskInvariant.Cr3IsLive | kernel/task.cc:220-243 | CR3 always names the kernel's directory or a live task's, never a free frame. |
| TaskSteps.RunTaskStarts | kernel/monitor.cc:92-100 | After runtask the first free slot is a running task with a fresh id, parent 0, the entry point and the stack pointer 0xDEBFE000, its directory is loaded, and it reads the program's image; the task that was running is ready again, and nothing else in the table of tasks changes. |
| UserMemory.ReadableIff | kernel/ksyscall.cc:46 | A string of count characters can be read if and only if every address less than 2 * count bytes behind its own, in 32 bits, is mapped. |
| TaskSteps.RunSwitches | kernel/task.cc:220-233 | run makes the task running, current, and its directory loaded, and the task that was running ready again; no frame, id, parent, directory or other status changes. If the task is current already, nothing does. |
| TaskSteps.MonitorResumes | kernel/monitor.cc:103-120 | With a frame held, cont and si enter its task with the frame's eip, esp and eax and the single-step flag cleared or set, and change nothing else; without a frame nothing happens. |
| TaskSteps.TrapSavesFrame | kernel/trap.cc:80-102 | After a trap that does not end the task, its frame is the one that the processor saved, with a system call's result in eax, zero for putString; it goes on, or the monitor holds the frame after a breakpoint or an unhandled trap; nothing else changes. |
| TaskSteps.TrapEndsTask | kernel/trap.cc:159-173 | Exit, a page fault, and a string that does not pass the check end the task: its memory is given back, its slot is the first free one, and the monitor runs without a task on the kernel's directory; other tasks are unchanged. |
| TaskSteps.DestroyedTask | kernel/task.cc:235-243 | destroy and free change nothing of the table of tasks but this task's status and the free list, and detach it exactly if it is current. |
| RunSafety.FreeTaskKeeps | kernel/task.cc:125-155 | Freeing a live task succeeds and keeps memory, slots and directories in agreement. |
| RunSafety.DestroyKeeps | kernel/task.cc:235-243 | destroy of the current task ends in the monitor with no current task and the kernel's directory loaded. |
| RunSafety.TrapKeeps | kernel/trap.cc:80-102 | A trap from user mode stops the kernel if and only if it hands over a string that passes the check of its length in bytes while one of the twice as many bytes from its address on (in 32 bits) is not mapped; otherwise the invariant is kept. |
| FrameNeeds.BuildNeed | kernel/task.cc:157-203 | A program is loaded exactly if its magic number is right and two frames for directories, one for each of its pages and the stack's, one for each page table, and one more if a segment uses the stack's page, are free; these come from the front of the list, all others stay there unwritten, and all but the replaced stack page are gone afterwards. |
| FrameNeeds.ImagePagesIff | kernel/task.cc:167-184 | The pages that BuildNeed counts are exactly the stack's and those that the range of a segment of type 1 touches. |
| RunSafety.StepKeeps | kernel/trap.cc:114-184 | Every event, user stores included, keeps the invariant and the kernel's frames and links no ring; it panics exactly for a runtask without slot, magic number or frames, and for a string as in TrapKeeps. |
| RunSafety.UserStoresAreOwn | kernel/task.cc:196-202 | A byte that a program stores between two traps changes that byte of its own memory, and no byte below UTOP of any other task. |
| UserStores.UserCanWriteIff | kernel/task.cc:196-202 | A program can store at an address exactly if its directory entry and its page-table entry both are present, writable and the user's. |
| UserMemory.StoreByteIff | kernel/task.cc:175 | The kernel's store works out exactly if the page is mapped writable, and changes the addressed byte of that frame only. |
| UserMemory.PageWords | kernel/task.cc:175 | The words of a frame are its bytes in fours, the lowest first. |
| RunSafety.RunsAreSafe | kernel/monitor.cc:92-120 | Every run from a safe state, with any stores of the programs in between, ends in a safe state, and never hands out or writes the frames reserved for the kernel. |
| RunSafety.SafeRunsStaySafe | kernel/monitor.cc:92-120 | Without reserved frames: every run from a safe state ends in a safe state. |
| RunSafety.CountsStaySmall | kernel/vmem.cc:255 | In every safe state the count of a frame that is not the kernel's is 0 or 1. |
| RunSafety.TwiceAsFarStops | kernel/ksyscall.cc:38-47 | Every putString on the stack's page whose bytes end by USTACKTOP while twice as many do not stops the kernel when that page is mapped and the one above is not. |
| RunSafety.RunTaskThenStops | kernel/ksyscall.cc:38-47 | These strings do so right after runtask, for every program that can be created and has no segment on the page of USTACKTOP. |
| RunSafety.WrappedLengthStops | kernel/ksyscall.cc:38-47 | A length that wraps around stops the kernel at the first unmapped byte. |
| UserCheck.CheckFromIff | kernel/vmem.cc:356-367 | The loop accepts exactly if every page start that it visits passes. |
| UserCheck.CheckFromPanics | kernel/vmem.cc:356-363 | In any memory at all, the loop stops the kernel exactly if it meets a directory entry for memory that does not exist, all page starts before it passing. |
| UserCheck.UserTest | kernel/vmem.cc:357-363 | For user access a page start passes exactly if it is below 0xDF800000, has a page table, and its entry is present or the user's. |
| UserCheck.SharesBitIff | kernel/vmem.cc:362 | The test of the loop is for any bit that both numbers have. |
| UserCheck.HasBitsIff | kernel/vmem.cc:350-351 | What it is meant to be: that the entry has all the bits asked for. |
| UserCheck.CheckIff | kernel/vmem.cc:352-367 | On ranges that do not wrap and whose every page is visited, userCheck returns true exactly if every page of the range passes. |
| UserCheck.AlignedCheckIff | kernel/vmem.cc:352-367 | In particular from every page-aligned address. |
| UserCheck.CheckSoundIff | kernel/vmem.cc:356-366 | For every range whose visited page starts are below ULIM: in all memories acceptance implies that every byte's page passes the test of the loop, if and only if the range is empty, or does not wrap around and all its pages are reached. |
| UserCheck.CheckGrantsIff | kernel/vmem.cc:350-363 | On ranges whose every page is visited, an accepted range satisfies perm (below ULIM, present, all bits set) if and only if no visited entry has only some of the bits. |
| UserCheck.NothingTrusted | kernel/vmem.cc:350-363 | For every range whose visited page starts are below ULIM: in all memories acceptance for PTE_U implies user access, if and only if the range is empty. |
| UserCheck.UnsoundExamples | kernel/vmem.cc:356 | Two ranges, one skipping a page and one wrapping around, for which acceptance proves nothing. |
| UserCheck.AboveUlimIsRefused | kernel/vmem.cc:358 | A visited page start at or above ULIM makes the check refuse. |
| UserCheck.WrappedIsAccepted | kernel/vmem.cc:356 | A range whose end wraps around is always accepted. |
| SelfTest.CheckLeavesEntry | kernel/vmem.cc:319-336 | The self-test passes, gives back both data frames filled with their patterns, and leaves in the kernel's directory an entry for an empty page table that is counted once. |
| SelfTest.CheckNeedsFour | kernel/vmem.cc:322-336 | It passes exactly if four frames are free, and panics otherwise. |
| SelfTest.ShowsBytes | kernel/vmem.cc:326-332 | The self-test's look at its page is that the eight bytes at 0x80000000 are those of the pattern. |
| StaleEntries.KernelEntryDanglesIff | kernel/task.cc:109-147 | After a task was set up and freed, the kernel's directory names a free frame if and only if it had an entry below UTOP. |
| BootStates.BootIsWeak | kernel/vmem.cc:298-337 | After the maps and the self-test the state is not safe, but would be with the entry for 0x80000000 cleared. |
| BootStates.BootLeavesList | kernel/vmem.cc:322-336 | The free list is then 890, 892, the frames from 889 down to the first free one, and the frames above 4 MiB. |
| BootStates.BootOverlapsIff | kernel/task.cc:23-34 | The Task array shares a frame with the 131 page tables or with the frames of the self-test if and only if it reaches frame 890. |
| BootStates.ArrayPlace | kernel/task.cc:23-34 | Otherwise all its frames are on the list that boot leaves, the first one behind exactly 892 - (nextFree + n) others. |
| BootStates.TaskArrayNotReserved | kernel/task.cc:23-34 | The frames of the Task array below number 891 are on the free list after boot, so no invariant reserves them. |
| StaleRuns.WeakIsStale | kernel/vmem.cc:334 | Every weakly safe state has the stale entry and is not safe. |
| ArrayRuns.ListStep | kernel/task.cc:109-203 | After the real boot, a step that frees no task only takes frames from the front of the free list, as many as its program needs; all others stay on the list, unwritten. |
| ArrayRuns.TakesIff | kernel/task.cc:109-203 | Exactly these frames are taken: with only k frames on the list the same step works out if and only if it needs at most k. |
| ArrayRuns.StepIff | kernel/task.cc:109-203 | With the Task array's frames on the list: a step stays weakly safe and takes none of them if and only if it frees no task and they are behind the frames it needs; then they stay on the list, unwritten. |
| ArrayRuns.StepEnds | kernel/trap.cc:80-102 | As long as they are, no step links a ring, and exactly a runtask without room or an unreadable string stops the kernel. |
| ArrayRuns.GoneIff | kernel/task.cc:189-203 | For programs that leave the stack's page to the stack, exactly the frames that are taken are off the list afterwards. |
| ArrayRuns.FirstIsOverwritten | kernel/task.cc:109-123 | The frame that is first on the list becomes a directory with the stale entry, and is off the list. |
| ArrayRuns.RunsIff | kernel/monitor.cc:92-120 | A run in which no task is freed takes none of the Task array's frames if and only if these are behind as many frames as RunTakes computes from the programs; then they stay on the list, unwritten, and the run ends weakly safe. |
| ArrayRuns.BootRunsIff | kernel/task.cc:23-34 | From the list that boot leaves, that is: the run takes at most 892 - (nextFree + n) frames, less one for a device's page table. |
| ArrayRuns.FirstTaskCrosses | kernel/task.cc:205-218 | With the array up to frame 888 or 889, the first runtask takes one of its frames, whatever the program. |
| ArrayRuns.RoundsTake | kernel/monitor.cc:92-100 | m rounds of runtask and a breakpoint take m times the frames of the program. |
| StaleFree.FreeDangles | kernel/task.cc:125-147 | The first task that is freed leaves the kernel's directory naming a page table that is on the free list; the step itself succeeds. |
| StaticMaps.StaticMapSteps | kernel/vmem.cc:270-281 | Over a page-aligned range that does not wrap: success exactly if there is a free frame per absent directory entry touched; exactly these are taken, every page is mapped to its offset, and no other translation changes. |
| BootMaps.BootFreeExact | kernel/vmem.cc:153-168 | The list of page::init holds exactly the frames from nextFreePage on, each once, those below 4 MiB first. |
| BootMaps.BootMapsSteps | kernel/vmem.cc:298-304 | The four maps need exactly 131 frames and take the first 131; each window maps what it should up to 2^32, and nothing else is mapped. |
| BootMaps.BootEstablishesOwnership | kernel/vmem.cc:106-123 | Up to the load of CR3 boot establishes ownership; all page tables lie below 4 MiB if and only if 131 of the free frames do. |
| EarlyMaps.EarlyMapIff | kernel/vmem.cc:270-281 | Before the kernel's directory is loaded, staticMap works out if and only if it would afterwards and all page tables that it makes lie below 4 MiB; then it does the same. |
| EarlyMaps.EarlyBootReaches | kernel/vmem.cc:298-307 | So the maps of boot work out if and only if 131 of the free frames lie below 4 MiB. |
| BootMaps.TaskArrayIsFree | kernel/vmem.cc:75-85 | Frames given out by bootAlloc after page::init are on the free list. |
| BootMaps.BootAllocSteps | kernel/vmem.cc:75-85 | bootAlloc returns the next place and moves it to the first page boundary behind the requested bytes. |
| MmioWindows.GuardIff | kernel/vmem.cc:287-289 | Of the requests that pass the guard, exactly those no larger than the device region fit into what is left of it. |
| MmioWindows.GuardWraps | kernel/vmem.cc:287-289 | Two sizes that pass and do not fit. |
| MmioWindows.MmioRefuses | kernel/vmem.cc:284-296 | For all 32-bit arguments: a call whose end, the pointer plus the size in whole pages in 32 bits, is outside of [0xDF800000, 0xDFC00000) panics, and any other that works out moves the pointer there and returns the old one. |
| MmioWindows.MmioMapSteps | kernel/vmem.cc:284-296 | One call succeeds exactly if the window ends before MMIOLIM and a frame is left for a missing page table; it then maps the window linearly. |
| MmioWindows.DeviceEntries | kernel/vmem.cc:291-294 | Page k of the window has the entry of page k of the device, present, writable, write-through and not cached, and not the user's: pa + k * 0x1000 + 0x1B. |
| MmioWindows.MmioMapsSteps | kernel/vmem.cc:284-296 | The windows of any sequence of calls are page-aligned, inside the region, disjoint, and each still translates to its own device memory at the end. |
| MmioSafety.MmioKeepsInvIff | kernel/vmem.cc:284-296 | mmioMap keeps ownership, with the same task directories, if and only if its page table was there or no task is alive. |
| MmioSafety.MmioIsCoherent | kernel/vmem.cc:284-296 | In every state of the kernel, those after the real boot included, it leaves no stale translation, whichever directory is loaded. |
| MmioRuns.MmioKeepsWeakIff | kernel/mp.cc:239-247 | In the states that the real boot reaches, where the kernel makes its only call, mmioMap keeps weak safety if and only if its page table was there or no task is alive. |
| CacheSafety.OrderedApart | kernel/vmem.cc:343-347 | Editing the page table of one entry of any live directory can disturb at most that entry, whichever directory is loaded, before and after the real boot; a new page table disturbs nothing. |
| MmioSafety.OrderedEditable | kernel/vmem.cc:343-347 | So the kernel's directory can be edited outside of its self-map, whichever directory is loaded. |
| KernelMemory.Memory.constructor | kernel/vmem.cc:26-30 | Memory before page::init: any contents, an empty list. |
| KernelMemory.Memory.Alloc | kernel/vmem.cc:43-56 | In place, exactly AllocFrame; the list stays a list and the cache coherent. |
| KernelMemory.Memory.Free | kernel/vmem.cc:35-41 | In place, exactly FreeFrame, with its panic and its ring. |
| KernelMemory.Memory.DecRef | kernel/vmem.cc:31-33 | In place, exactly DecRef on 16 bits. |
| KernelMemory.Memory.FreeCount | kernel/vmem.cc:58-66 | Returns the number of free frames. |
| KernelMemory.Memory.FindPte | kernel/vmem.cc:196-225 | In place, exactly FindPte; the cache stays coherent. |
| KernelMemory.Memory.FindInfo | kernel/vmem.cc:228-234 | In place, exactly FindInfo; nothing changes. |
| KernelMemory.Memory.Remove | kernel/vmem.cc:237-247 | In place, exactly Remove; no cached translation is stale afterwards. |
| KernelMemory.Memory.Insert | kernel/vmem.cc:250-266 | In place, exactly Insert; no cached translation is stale afterwards. |
| KernelMemory.Memory.StaticMap | kernel/vmem.cc:270-281 | In place, exactly StaticMap, with its store through null; the cache stays coherent. |
| KernelMemory.Memory.MmioMap | kernel/vmem.cc:284-296 | In place, exactly MmioMap with its bump pointer. |
| KernelMemory.Memory.UserCheck | kernel/vmem.cc:352-367 | In place, exactly Check; nothing changes. |
| KernelMemory.Memory.ReadString | kernel/ksyscall.cc:46 | Reading the string succeeds exactly if every one of the 2 * count bytes from its address on, in 32 bits, is mapped. |
| KernelMemory.Memory.PageInit | kernel/vmem.cc:138-175 | Builds exactly the list and counts of BootFree and BootCounts; its last check passes exactly if a frame below 4 MiB is free. |
| KernelSpaces.SpaceManager.MapDevice | kernel/vmem.cc:284-296 | In place in a running kernel, exactly MmioMap; a window of a good request leaves no stale translation, whichever directory is loaded. |
| KernelSpaces.SpaceManager.SetupMemory | kernel/task.cc:109-123 | In place, exactly SetupMemory; the cache stays coherent. |
| KernelSpaces.SpaceManager.RegionAlloc | kernel/task.cc:189-203 | In place, exactly RegionAlloc; the cache stays coherent. |
| KernelSpaces.SpaceManager.FreeSpace | kernel/task.cc:128-147 | In place, exactly FreeSpace; the cache stays coherent if the directory is not loaded. |
| KernelSpaces.SpaceManager.LoadElf | kernel/task.cc:157-186 | In place through the task's own directory, exactly LoadElf, of which LoadedSegment and LoadedElsewhere say what is read afterwards; CR3 is the kernel's afterwards. |
| KernelTasks.TaskTable.Init | kernel/task.cc:36-45 | All slots are free, in ascending order. |
| KernelTasks.TaskTable.Alloc | kernel/task.cc:73-107 | In place, exactly Alloc, with the slot lost when no frame is left. |
| KernelTasks.TaskTable.Create | kernel/task.cc:205-218 | In place, exactly Create. |
| KernelTasks.TaskTable.Run | kernel/task.cc:220-233 | In place, exactly RunTask, the switch that RunSwitches spells out. |
| KernelTasks.TaskTable.Free | kernel/task.cc:125-155 | In place, exactly FreeTask; the cache stays coherent for a task that may be freed. |
| KernelTasks.TaskTable.Destroy | kernel/task.cc:235-243 | In place, exactly Destroy. |
| KernelTasks.TaskTable.Resume | kernel/monitor.cc:103-120 | In place, exactly Resume, which MonitorResumes spells out for cont and si. |
| KernelTasks.TaskTable.Trap | kernel/trap.cc:80-184 | In place, exactly HandleTrap: TrapSavesFrame and TrapEndsTask say what it leaves in the table of tasks, TrapKeeps when it stops the kernel. |
| KernelTasks.TaskTable.Store | kernel/task.cc:220-233 | In place, exactly UserStore: a byte stored by the program that runs. |
| KernelRuns.Step | kernel/trap.cc:80-184 | One event in place from a safe state: it follows the model, the state stays safe and the cache coherent, and the kernel stops exactly as StepKeeps says. |
| KernelRuns.StepAfterBoot | kernel/trap.cc:80-184 | One event in place after the real boot: it follows the model, stops exactly as StepEnds says, keeps the cache coherent, and stays weakly safe without taking a frame of the Task array if and only if no task is freed and the array is behind the frames needed; then the array stays unwritten. |
| KernelRuns.MapDevice | kernel/mp.cc:239-247 | mmioMap in place after the real boot: the cache stays coherent, one frame is taken exactly if there was no page table, and the state stays weakly safe as MmioKeepsWeakIff says. |
| KernelBoot.PrepareMemory | kernel/vmem.cc:183-189 | From any memory, page::init's state with a directory that maps itself only. |
| KernelBoot.MapBoot | kernel/vmem.cc:298-304 | In place, exactly the maps of boot through the entry directory, with the fault on a page table above 4 MiB. |
| KernelBoot.SelfCheck | kernel/vmem.cc:319-336 | In place, exactly the self-test; the cache stays coherent. |
| KernelBoot.BootMemory | kernel/vmem.cc:106-123 | With the Task array right behind the frames counted by page::init: succeeds exactly if the array ends below 4 MiB, 131 free frames lie there, and 135 frames are free. |
| KernelBoot.Boot | kernel/vmem.cc:106-131 | Under exactly the same condition boot ends in the monitor; if the array ends below frame 890, in a weakly safe state that is not safe, with the list of BootLeavesList and a coherent cache. |
| Conversions.KernAddrRoundTripIff | kernel/vmem.hh:52-69 | The guard lets exactly the bytes of existing frames through; the address converts back exactly inside the window that the kernel maps. |
| Conversions.FrameRoundTrip | kernel/vmem.hh:94-106 | A frame and its address determine each other, whatever the offset. |
| Conversions.FramesAreReachable | kernel/vmem.hh:52-100 | With at most 2^17 frames every access to a frame is to that frame. |
| Mmu.PgaddrRoundTrip | include/mmu.h:31-44 | The fields of a composed address are its parts. |
| Mmu.RoundPages | include/types.h:74-84 | Rounding in 32 bits, with the wrap to zero above the last page boundary. |
| Mmu.Layout | include/memlayout.h:89-130 | The addresses of the layout, as numbers. |
| MemMove.Copy | lib/string.cc:20-26 | Copying from the front leaves the bytes that repeat with the distance of overlapping ranges. |
| MemMove.CopyMovesIff | lib/string.cc:20-26 | It is a move exactly if the ranges do not overlap upwards, or the source repeats with their distance. |
| MemMove.Move | lib/string.cc:28-86 | For every overlap and alignment the destination holds the original source bytes and nothing else changes. |
| Numbers.Screen.PrintNumber | lib/printfmt.cc:63-73 | Prints the digits of the number, padded on the left to the width. |
| Numbers.Screen.PrintInt | lib/printfmt.cc:139-146 | Prints a sign in front of the padded field. |
| Numbers.ToLong | lib/strtol.cc:11-52 | The scanning loop computes what the string denotes, in 32 bits. |
| Numbers.PrintThenParse | lib/strtol.cc:11-52 | Printing and reading in base 8, 10 or 16 gives the number back exactly if it is below 2^31. |
| Numbers.DigitsCase | lib/printfmt.cc:63-73 | The digits from ten on are the letters A to F if capitals are asked for, and a to f otherwise. |
| Numbers.PrefixThenParse | lib/strtol.cc:11-52 | With base 0, which the monitor passes, a leading 0 reads as octal, 0x as hexadecimal, and anything else as decimal, with or without a plus sign: the number below 2^31 that was printed comes back. |
| Numbers.BlanksAreSkipped | lib/strtol.cc:16-19 | Spaces and the characters from tab to carriage return in front of a number do not matter. |
| Numbers.FirstCharacter | lib/strtol.cc:39-48 | A string that starts with neither a blank nor a sign nor a digit or letter below the base reads as zero, and a single such digit or letter as its value. |
| Numbers.PrintIntThenParse | lib/printfmt.cc:139-146 | A %d of any 32-bit int reads back as itself, except exactly for a negative number padded with spaces. |
| Tokenizer.Find | lib/string.cc:144-148 | The first occurrence, or none. |
| Tokenizer.Split | lib/string.cc:153-176 | With quotes ignored: the pointers are the starts of the tokens, and the text is cut at the delimiters up to the last token. |
| Tokenizer.TokensAreRuns | lib/string.cc:158-170 | The tokens are the maximal delimiter-free runs, in order. |
| Tokenizer.TokensCover | lib/string.cc:158-170 | Below the limit no run is missed. |
| Tokenizer.TokensReadBack | lib/string.cc:150-176 | Each pointer reads back as its token; at the limit the last one gives the untouched remainder. |

## Left out

- OwnershipSteps.RemoveBelowUtop: removing a page at or above UTOP is not covered, because it drops a count on a frame that
  the static maps never counted; no caller does it, and RemoveIsDelete says what it does to translations.
- OwnershipSteps.InsertKeepsInv: covers task directories below UTOP and frames that were allocated or are mapped; the
  kernel's own insertion, into its directory during boot, is KernelInsertIsUpdate and SelfTest.
- RadixTree.InsertIsUpdate: the same restriction as OwnershipSteps.InsertKeepsInv; insert at or above UTOP has no caller.
- Tasks.Step: runtask after a failed create calls run on a null task, which is modelled as a panic; if a
  current task has mapped page 0, the code writes into that page instead (kernel/task.cc:220-228).
- StaticMaps.StaticMapSteps: sizes above 0xFFFFF000, for which the loop does not end, and physical addresses that are
  not page-aligned, which would spill into the flags.
- KernelTasks.TaskTable.Create: calls that would link a ring are excluded; CreateKeeps and WeakCreateEnds show
  that there are none. The same holds for the other methods that contain loops.
- KernelBoot.Boot: says nothing about the state if the Task array reaches frame 890, because task::init then writes into
  page tables, or into frames of the self-test.
- KernelBoot.EarlyClear: clears whole frames; behind the last task, the code leaves the rest of the last frame as it is.
- ArrayRuns.StepIff: says when a step takes a frame of the Task array, but does not follow what the code does
  from there on, with task structs cleared under it.
- UserMemory.Readable: a 16-bit access at address 0xFFFFFFFF is modelled as wrapping around, where the
  processor would raise a limit fault.
- Decoding of ELF headers: segments are given decoded, and the file holds the bytes that they announce.
- The Task array and PageInfo as memory that the kernel writes: tasks and counts are separate arrays of the
  model; what that needs of the frames is the `reserved` set of RunsAreSafe and the set of ArrayRuns.
- Accessed and dirty bits, and permissions of 12 bits or more.
- Names, types, printed messages, segment registers, and the parts of a trap frame that the modelled code
  neither reads nor writes.
- Traps from kernel mode other than the page faults above; interrupts are off in the kernel.
- The freeing of a second task after the first one of a real boot, when the free list holds a page table
  that the kernel's directory names.
- Numbers outside of 64 bits in toLong; the quote mode of split, which no caller uses.
- printFmtVa beyond the number conversions; the random generator; string comparison and copying.
- The keyboard decoder, the serial port, the text screen, the monitor's other commands, NVRAM detection,
  APIC and MP tables, segment descriptors, interrupt tables and boot code.
